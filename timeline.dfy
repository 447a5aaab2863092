/**
 * The timeline derived from the command list: the start time of a position
 * (a loop summing earlier durations), the total time (a reduce), the
 * `mm:ss.mmm` rendering of a time, and the time/RPM staircase handed to the
 * plot. All times are integer milliseconds.
 */
module Timeline {
  import opened Wrappers
  import opened JsText
  import opened Commands

  /** The reference definition: the sum of the durations of a list of commands. */
  function SumDurations(cmds: seq<SpindleCommand>): int
    decreases |cmds|
  {
    if cmds == [] then 0 else cmds[0].durationMs + SumDurations(cmds[1..])
  }

  lemma {:induction false} SumAppend(a: seq<SpindleCommand>, b: seq<SpindleCommand>)
    ensures SumDurations(a + b) == SumDurations(a) + SumDurations(b)
    decreases |a|
  {
    if a == [] {
      assert a + b == b;
    } else {
      assert (a + b)[1..] == a[1..] + b;
      SumAppend(a[1..], b);
    }
  }

  /** How many commands lie before position `index`: the loop runs `index` times, but only existing ones count. */
  function Clamp(index: int, n: nat): nat {
    if index < 0 then 0 else if index > n then n else index
  }

  /**
   * The start time of position `index`: the durations of the commands
   * before it; positions that do not exist contribute nothing.
   */
  function StartTime(cmds: seq<SpindleCommand>, index: int): int {
    SumDurations(cmds[..Clamp(index, |cmds|)])
  }

  /** One more position adds the duration of the command there, or nothing past the end. */
  lemma StartTimeStep(cmds: seq<SpindleCommand>, i: nat)
    ensures StartTime(cmds, i + 1) == StartTime(cmds, i) + (if i < |cmds| then cmds[i].durationMs else 0)
  {
    if i < |cmds| {
      assert cmds[..i + 1] == cmds[..i] + [cmds[i]];
      SumAppend(cmds[..i], [cmds[i]]);
    }
  }

  /** `calcStartTimeMs`: the loop over positions before `index`, reading a missing command as duration 0. */
  method CalcStartTimeMs(cmds: seq<SpindleCommand>, index: int) returns (startTimeMs: int)
    ensures startTimeMs == StartTime(cmds, index)
  {
    startTimeMs := 0;
    var i := 0;
    while i < index
      invariant 0 <= i && (i == 0 || i <= index)
      invariant startTimeMs == StartTime(cmds, i)
    {
      startTimeMs := startTimeMs + (if i < |cmds| then cmds[i].durationMs else 0);
      StartTimeStep(cmds, i);
      i := i + 1;
    }
  }

  /** The left fold of `reduce((acc, command) => acc + command.durationMs, acc)`. */
  function FoldDurations(acc: int, cmds: seq<SpindleCommand>): int
    decreases |cmds|
  {
    if cmds == [] then acc else FoldDurations(acc + cmds[0].durationMs, cmds[1..])
  }

  /** `totalTime`: the reduce over all durations, starting from 0, which is their sum. */
  function TotalTime(cmds: seq<SpindleCommand>): (total: int)
    ensures total == SumDurations(cmds)
  {
    FoldIsSum(0, cmds);
    FoldDurations(0, cmds)
  }

  lemma {:induction false} FoldIsSum(acc: int, cmds: seq<SpindleCommand>)
    ensures FoldDurations(acc, cmds) == acc + SumDurations(cmds)
    decreases |cmds|
  {
    if cmds != [] {
      FoldIsSum(acc + cmds[0].durationMs, cmds[1..]);
    }
  }

  /** The first command starts at 0; every position at or past the end starts at the total time. */
  lemma StartTimeEnds(cmds: seq<SpindleCommand>, k: int)
    ensures StartTime(cmds, 0) == 0
    ensures k >= |cmds| ==> StartTime(cmds, k) == TotalTime(cmds)
  {
    assert cmds[..|cmds|] == cmds;
  }

  /** The time between two positions is the sum of the durations of the commands between them. */
  lemma StartTimeGap(cmds: seq<SpindleCommand>, i: nat, j: nat)
    requires i <= j <= |cmds|
    ensures StartTime(cmds, j) - StartTime(cmds, i) == SumDurations(cmds[i..j])
  {
    assert cmds[..j] == cmds[..i] + cmds[i..j];
    SumAppend(cmds[..i], cmds[i..j]);
  }

  predicate NonNegativeDurations(cmds: seq<SpindleCommand>) {
    forall i :: 0 <= i < |cmds| ==> cmds[i].durationMs >= 0
  }

  /** With non-negative durations a sum is zero exactly when every duration is zero. */
  lemma {:induction false} SumZeroIff(cmds: seq<SpindleCommand>)
    requires NonNegativeDurations(cmds)
    ensures SumDurations(cmds) >= 0
    ensures SumDurations(cmds) == 0 <==> forall i :: 0 <= i < |cmds| ==> cmds[i].durationMs == 0
    decreases |cmds|
  {
    if cmds != [] {
      var rest := cmds[1..];
      assert NonNegativeDurations(rest) by {
        forall i | 0 <= i < |rest| ensures rest[i].durationMs >= 0 {
          assert rest[i] == cmds[i + 1];
        }
      }
      SumZeroIff(rest);
      if forall i :: 0 <= i < |cmds| ==> cmds[i].durationMs == 0 {
        forall i | 0 <= i < |rest| ensures rest[i].durationMs == 0 {
          assert rest[i] == cmds[i + 1];
        }
      }
      if SumDurations(cmds) == 0 {
        forall i | 0 <= i < |cmds| ensures cmds[i].durationMs == 0 {
          if i > 0 {
            assert cmds[i] == rest[i - 1];
          }
        }
      }
    }
  }

  /** With non-negative durations, later positions never start earlier. */
  lemma StartTimeMonotone(cmds: seq<SpindleCommand>, i: int, j: int)
    requires NonNegativeDurations(cmds)
    requires i <= j
    ensures StartTime(cmds, i) <= StartTime(cmds, j)
  {
    var a, b := Clamp(i, |cmds|), Clamp(j, |cmds|);
    StartTimeGap(cmds, a, b);
    SumZeroIff(cmds[a..b]);
  }

  /**
   * With non-negative durations, two positions start at the same time
   * exactly when every command between them has zero duration.
   */
  lemma StartTimeEqualIff(cmds: seq<SpindleCommand>, i: nat, j: nat)
    requires NonNegativeDurations(cmds)
    requires i <= j <= |cmds|
    ensures StartTime(cmds, i) == StartTime(cmds, j) <==> forall k :: i <= k < j ==> cmds[k].durationMs == 0
  {
    var between := cmds[i..j];
    StartTimeGap(cmds, i, j);
    SumZeroIff(between);
    assert (forall k :: i <= k < j ==> cmds[k].durationMs == 0) <==>
           (forall k :: 0 <= k < |between| ==> between[k].durationMs == 0) by {
      if forall k :: 0 <= k < |between| ==> between[k].durationMs == 0 {
        forall k | i <= k < j ensures cmds[k].durationMs == 0 {
          assert cmds[k] == between[k - i];
        }
      }
    }
  }

  // ---------------------------------------------------------------------
  // Rendering a time as mm:ss.mmm

  /** The fields `formatTimeMs` prints. */
  datatype Clock = Clock(minutes: int, seconds: int, milliseconds: int)

  /** The number of milliseconds a reading of the three fields stands for. */
  function ClockValue(c: Clock): int {
    c.minutes * 60000 + c.seconds * 1000 + c.milliseconds
  }

  /** Seconds below a minute and milliseconds below a second, both non-negative. */
  predicate SubMinute(c: Clock) {
    0 <= c.seconds < 60 && 0 <= c.milliseconds < 1000
  }

  /** Minutes unbounded but non-negative, the other fields sub-minute. */
  predicate InRange(c: Clock) {
    c.minutes >= 0 && SubMinute(c)
  }

  /**
   * `Math.floor(t / 60000)` minutes, `Math.floor((t % 60000) / 1000)` seconds
   * and `t % 1000` milliseconds, with JavaScript's truncating `%`.
   * For a non-negative time they are its exact decomposition.
   */
  function ClockOf(t: int): (c: Clock)
    ensures t >= 0 ==> InRange(c) && ClockValue(c) == t
  {
    Clock(t / 60000, JsRem(t, 60000) / 1000, JsRem(t, 1000))
  }

  /** The text of the three fields: `mm:ss.mmm`, padded with "0" on the left. */
  function RenderClock(c: Clock): string {
    PadStart(IntToString(c.minutes), 2) + ":" + PadStart(IntToString(c.seconds), 2) + "." + PadStart(IntToString(c.milliseconds), 3)
  }

  /**
   * `formatTimeMs`: minutes and seconds padded to two digits, milliseconds
   * to three. The text of a non-negative time, or of a whole number of
   * minutes, reads back as that time.
   */
  function FormatTimeMs(t: int): (text: string)
    ensures t >= 0 || t % 60000 == 0 ==> ParseTime(text) == Some(t)
  {
    var c := ClockOf(t);
    if t >= 0 then
      RenderClockParses(c);
      RenderClock(c)
    else if t % 60000 == 0 then
      WholeMinutesClock(t);
      RenderClockParses(c);
      RenderClock(c)
    else
      RenderClock(c)
  }

  /** A whole number of minutes, of either sign, has zero seconds and milliseconds. */
  lemma WholeMinutesClock(t: int)
    requires t % 60000 == 0
    ensures ClockOf(t) == Clock(t / 60000, 0, 0)
    ensures SubMinute(ClockOf(t)) && ClockValue(ClockOf(t)) == t
  {
    var k := t / 60000;
    assert t == 60000 * k;
    assert -t == 60000 * (-k);
    assert (-t) % 60000 == 0 && t % 1000 == 0 && (-t) % 1000 == 0;
  }

  /** Reads a `mm:ss.mmm` text back into milliseconds. */
  function ParseTime(s: string): Option<int> {
    if |s| >= 7 && s[|s| - 7] == ':' && s[|s| - 4] == '.' then
      match (ParseInt(s[..|s| - 7]), ParseInt(s[|s| - 6..|s| - 4]), ParseInt(s[|s| - 3..]))
      case (Some(m), Some(sec), Some(ms)) => Some(ClockValue(Clock(m, sec, ms)))
      case _ => None
    else None
  }

  lemma NatToStringShort(n: nat)
    ensures n < 100 ==> |NatToString(n)| <= 2
    ensures n < 1000 ==> |NatToString(n)| <= 3
  {
    if 10 <= n {
      assert NatToString(n) == NatToString(n / 10) + [DigitChar(n % 10)];
      if 10 <= n / 10 {
        assert NatToString(n / 10) == NatToString(n / 100) + [DigitChar(n / 10 % 10)];
      }
    }
  }

  /** A padded non-negative number is at least as wide as asked, exactly as wide when it fits, and parses back. */
  lemma PaddedField(n: nat, width: nat)
    ensures |PadStart(IntToString(n), width)| >= width
    ensures |NatToString(n)| <= width ==> |PadStart(IntToString(n), width)| == width
    ensures ParseInt(PadStart(IntToString(n), width)) == Some(n)
  {
    var p := PadStart(NatToString(n), width);
    assert IntToString(n) == NatToString(n);
    PaddedNatValue(n, width);
    assert IsDigit(p[0]);
  }

  /** The minutes field of any sign is at least two characters wide and parses back. */
  lemma MinutesField(m: int)
    ensures |PadStart(IntToString(m), 2)| >= 2
    ensures ParseInt(PadStart(IntToString(m), 2)) == Some(m)
  {
    if m >= 0 {
      PaddedField(m, 2);
    } else {
      assert PadStart(IntToString(m), 2) == IntToString(m);
      IntToStringRoundTrip(m);
    }
  }

  /** A text assembled from three parsable fields of the right widths reads back as their clock value. */
  lemma ParseTimeFields(mm: string, ss: string, ms: string, c: Clock)
    requires |ss| == 2 && |ms| == 3
    requires ParseInt(mm) == Some(c.minutes) && ParseInt(ss) == Some(c.seconds) && ParseInt(ms) == Some(c.milliseconds)
    ensures ParseTime(mm + ":" + ss + "." + ms) == Some(ClockValue(c))
  {
    var s := mm + ":" + ss + "." + ms;
    assert s[..|s| - 7] == mm;
    assert s[|s| - 6..|s| - 4] == ss;
    assert s[|s| - 3..] == ms;
  }

  /** The rendering is the three padded fields around their separators. */
  lemma RenderClockFields(c: Clock)
    ensures RenderClock(c) == PadStart(IntToString(c.minutes), 2) + ":" + PadStart(IntToString(c.seconds), 2) + "." + PadStart(IntToString(c.milliseconds), 3)
  {
  }

  /** Where the separators of `mm:ss.mmm` sit, counted from the end. */
  lemma FieldsShape(mm: string, ss: string, ms: string)
    requires |mm| >= 2 && |ss| == 2 && |ms| == 3
    ensures |mm + ":" + ss + "." + ms| >= 9
    ensures (mm + ":" + ss + "." + ms)[|mm + ":" + ss + "." + ms| - 7] == ':'
    ensures (mm + ":" + ss + "." + ms)[|mm + ":" + ss + "." + ms| - 4] == '.'
  {
  }

  /** In range, the three fields are at least two, exactly two and exactly three characters wide. */
  lemma FieldWidths(c: Clock)
    requires SubMinute(c)
    ensures |PadStart(IntToString(c.minutes), 2)| >= 2
    ensures |PadStart(IntToString(c.seconds), 2)| == 2
    ensures |PadStart(IntToString(c.milliseconds), 3)| == 3
  {
    NatToStringShort(c.seconds);
    NatToStringShort(c.milliseconds);
    assert IntToString(c.seconds) == NatToString(c.seconds);
    assert IntToString(c.milliseconds) == NatToString(c.milliseconds);
  }

  /** In range, the three fields are at least two, exactly two and exactly three characters wide, and parse back. */
  lemma RenderedFields(c: Clock)
    requires SubMinute(c)
    ensures |PadStart(IntToString(c.minutes), 2)| >= 2 && ParseInt(PadStart(IntToString(c.minutes), 2)) == Some(c.minutes)
    ensures |PadStart(IntToString(c.seconds), 2)| == 2 && ParseInt(PadStart(IntToString(c.seconds), 2)) == Some(c.seconds)
    ensures |PadStart(IntToString(c.milliseconds), 3)| == 3 && ParseInt(PadStart(IntToString(c.milliseconds), 3)) == Some(c.milliseconds)
  {
    NatToStringShort(c.seconds);
    NatToStringShort(c.milliseconds);
    MinutesField(c.minutes);
    PaddedField(c.seconds, 2);
    PaddedField(c.milliseconds, 3);
  }

  /**
   * Fields in range render as `mm:ss.mmm` with at least two minute digits,
   * exactly two second digits and exactly three millisecond digits.
   */
  lemma RenderClockShape(c: Clock)
    requires InRange(c)
    ensures |RenderClock(c)| >= 9
    ensures RenderClock(c)[|RenderClock(c)| - 7] == ':' && RenderClock(c)[|RenderClock(c)| - 4] == '.'
  {
    RenderClockFields(c);
    FieldWidths(c);
    FieldsShape(PadStart(IntToString(c.minutes), 2), PadStart(IntToString(c.seconds), 2), PadStart(IntToString(c.milliseconds), 3));
  }

  /** Fields in range render to a text that reads back as the clock's value. */
  lemma RenderClockParses(c: Clock)
    requires SubMinute(c)
    ensures ParseTime(RenderClock(c)) == Some(ClockValue(c))
  {
    RenderedFields(c);
    ParseTimeFields(PadStart(IntToString(c.minutes), 2), PadStart(IntToString(c.seconds), 2), PadStart(IntToString(c.milliseconds), 3), c);
  }

  /** One millisecond before zero (reachable only with negative durations) renders as "-1:-1.0-1". */
  lemma FormatNegativeTime()
    ensures FormatTimeMs(-1) == "-1:-1.0-1"
  {
    var c := ClockOf(-1);
    assert JsRem(-1, 60000) == -1;
    assert c == Clock(-1, -1, -1);
    var one := IntToString(-1);
    assert NatToString(1) == "1";
    assert one == "-1";
    assert PadStart(one, 2) == "-1";
    assert PadStart(one, 3) == "0-1";
  }

  /**
   * Below zero both `Math.floor` calls round the negative quotients down
   * while `%` truncates toward zero, so unless the time is a whole number
   * of minutes the fields are no decomposition of it: -61001 ms renders as
   * "-2:-2.0-1", which stands for -122001 ms.
   * Quotients truncated toward zero would give the fields (-1, -1, -1),
   * which add back up to -61001.
   */
  lemma NegativeTimeMisreads()
    ensures ClockOf(-61001) == Clock(-2, -2, -1)
    ensures ClockValue(ClockOf(-61001)) == -122001
    ensures FormatTimeMs(-61001) == "-2:-2.0-1"
    ensures TruncQuot(-61001, 60000) == -1 && TruncQuot(JsRem(-61001, 60000), 1000) == -1
    ensures ClockValue(Clock(TruncQuot(-61001, 60000), TruncQuot(JsRem(-61001, 60000), 1000), JsRem(-61001, 1000))) == -61001
  {
    assert ClockOf(-61001) == Clock(-2, -2, -1) by {
      assert JsRem(-61001, 60000) == -1001;
      assert JsRem(-61001, 1000) == -1;
    }
    assert RenderClock(Clock(-2, -2, -1)) == "-2:-2.0-1" by {
      NegativeFields();
    }
  }

  /**
   * Below zero the fields add back up to the time exactly when it is a
   * whole number of minutes. Otherwise a floored seconds field takes a
   * minute too much, and a non-zero millisecond field a second more.
   */
  lemma NegativeClockValue(t: int)
    requires t < 0
    ensures ClockValue(ClockOf(t)) == t <==> t % 60000 == 0
    ensures t % 60000 != 0 && t % 1000 == 0 ==> ClockValue(ClockOf(t)) == t - 60000
    ensures t % 1000 != 0 ==> ClockValue(ClockOf(t)) == t - 61000
  {
    var a := -t;
    var q, r := a / 60000, a % 60000;
    var sec, ms := r / 1000, r % 1000;
    NegatedQuotient(a, 60000);
    NegatedQuotient(r, 1000);
    NegatedQuotient(a, 1000);
    RemainderOfMinutes(a);
    assert JsRem(t, 60000) == -r && JsRem(t, 1000) == -ms;
    if r == 0 {
      assert ClockOf(t) == Clock(-q, 0, 0);
    } else if ms == 0 {
      assert ClockOf(t) == Clock(-q - 1, -sec, 0);
    } else {
      assert ClockOf(t) == Clock(-q - 1, -sec - 1, -ms);
    }
  }

  /**
   * Flooring the quotient of a negated dividend, for the two divisors the
   * rendering uses: one less unless the division is exact.
   */
  lemma NegatedQuotient(a: int, b: int)
    requires a >= 0 && (b == 60000 || b == 1000)
    ensures (-a) / b == if a % b == 0 then -(a / b) else -(a / b) - 1
    ensures (-a) % b == 0 <==> a % b == 0
  {
    var q, r := a / b, a % b;
    if b == 60000 {
      assert a == 60000 * q + r;
    } else {
      assert a == 1000 * q + r;
    }
  }

  /** The milliseconds of a time are those of its remainder within the minute. */
  lemma RemainderOfMinutes(a: int)
    requires a >= 0
    ensures a % 1000 == (a % 60000) % 1000
  {
    var q, r := a / 60000, a % 60000;
    assert a == 1000 * (60 * q + r / 1000) + r % 1000;
  }

  /** A whole negative minute renders as "-1:00.000" and reads back. */
  lemma NegativeWholeMinute()
    ensures FormatTimeMs(-60000) == "-1:00.000"
    ensures ParseTime(FormatTimeMs(-60000)) == Some(-60000)
  {
    assert ClockOf(-60000) == Clock(-1, 0, 0) by {
      WholeMinutesClock(-60000);
    }
    assert RenderClock(Clock(-1, 0, 0)) == "-1:00.000" by {
      WholeMinuteFields();
    }
  }

  /** The padded texts of -1 and of 0. */
  lemma WholeMinuteFields()
    ensures PadStart(IntToString(-1), 2) == "-1"
    ensures PadStart(IntToString(0), 2) == "00"
    ensures PadStart(IntToString(0), 3) == "000"
  {
    assert NatToString(1) == "1" && NatToString(0) == "0";
    assert IntToString(-1) == "-1" && IntToString(0) == "0";
  }

  /** The padded texts of -2 and -1. */
  lemma NegativeFields()
    ensures PadStart(IntToString(-2), 2) == "-2"
    ensures PadStart(IntToString(-1), 3) == "0-1"
  {
    assert NatToString(2) == "2" && NatToString(1) == "1";
    assert IntToString(-2) == "-2" && IntToString(-1) == "-1";
  }


  // ---------------------------------------------------------------------
  // The plot: a staircase of (time, rpm) points

  /** The clock the plot starts from: one hour before the epoch. */
  const PlotStartMs: int := -60 * 60 * 1000

  /**
   * The points of the first `i` commands: point `j` lies at the start of
   * command `j / 2` for even `j` and at its end for odd `j`, at its RPM.
   */
  predicate Projected(cmds: seq<SpindleCommand>, x: seq<int>, y: seq<int>, i: nat)
    requires i <= |cmds|
  {
    |x| == |y| == 2 * i &&
    (forall j :: 0 <= j < |y| ==> y[j] == cmds[j / 2].rpm) &&
    (forall j :: 0 <= j < |x| ==> x[j] == PlotStartMs + StartTime(cmds, (j + 1) / 2))
  }

  /** One loop iteration: the start and end points of command `i` extend the projection. */
  lemma ProjectStep(cmds: seq<SpindleCommand>, x: seq<int>, y: seq<int>, i: nat, t: int)
    requires i < |cmds| && Projected(cmds, x, y, i)
    requires t == PlotStartMs + StartTime(cmds, i)
    ensures t + cmds[i].durationMs == PlotStartMs + StartTime(cmds, i + 1)
    ensures Projected(cmds, x + [t] + [t + cmds[i].durationMs], y + [cmds[i].rpm] + [cmds[i].rpm], i + 1)
  {
    StartTimeStep(cmds, i);
    var x', y' := x + [t] + [t + cmds[i].durationMs], y + [cmds[i].rpm] + [cmds[i].rpm];
    forall j | 0 <= j < |y'| ensures y'[j] == cmds[j / 2].rpm {
      if j >= |y| {
        assert j / 2 == i;
      }
    }
    forall j | 0 <= j < |x'| ensures x'[j] == PlotStartMs + StartTime(cmds, (j + 1) / 2) {
      if j == |x| {
        assert (j + 1) / 2 == i;
      } else if j == |x| + 1 {
        assert (j + 1) / 2 == i + 1;
      }
    }
  }

  /** What a complete projection says, command by command. */
  lemma ProjectedPoints(cmds: seq<SpindleCommand>, x: seq<int>, y: seq<int>, k: nat)
    requires k < |cmds| && Projected(cmds, x, y, |cmds|)
    ensures y[2 * k] == cmds[k].rpm && y[2 * k + 1] == cmds[k].rpm
    ensures x[2 * k] == PlotStartMs + StartTime(cmds, k)
    ensures x[2 * k + 1] == x[2 * k] + cmds[k].durationMs
    ensures 0 < k ==> x[2 * k - 1] == x[2 * k]
  {
    assert (2 * k) / 2 == k && (2 * k + 1) / 2 == k;
    assert (2 * k + 1) / 2 == k && (2 * k + 2) / 2 == k + 1;
    StartTimeStep(cmds, k);
    if 0 < k {
      assert (2 * k - 1 + 1) / 2 == k;
    }
  }

  /**
   * The `x`/`y` loop: for each command a point at its start and a point at
   * its end, both at its RPM, so consecutive commands meet in a vertical step.
   */
  method ProjectTimeline(cmds: seq<SpindleCommand>) returns (x: seq<int>, y: seq<int>)
    ensures |x| == |y| == 2 * |cmds|
    ensures forall k :: 0 <= k < |cmds| ==> y[2 * k] == cmds[k].rpm && y[2 * k + 1] == cmds[k].rpm
    ensures forall k :: 0 <= k < |cmds| ==> x[2 * k] == PlotStartMs + StartTime(cmds, k)
    ensures forall k :: 0 <= k < |cmds| ==> x[2 * k + 1] == x[2 * k] + cmds[k].durationMs
    ensures forall k :: 0 < k < |cmds| ==> x[2 * k] == x[2 * k - 1] == PlotStartMs + StartTime(cmds, k)
    ensures |cmds| > 0 ==> x[|x| - 1] == PlotStartMs + TotalTime(cmds)
  {
    x, y := [], [];
    var currentTimeMs := PlotStartMs;
    for i := 0 to |cmds|
      invariant currentTimeMs == PlotStartMs + StartTime(cmds, i)
      invariant Projected(cmds, x, y, i)
    {
      var command := cmds[i];
      ProjectStep(cmds, x, y, i, currentTimeMs);
      x := x + [currentTimeMs];
      y := y + [command.rpm];
      currentTimeMs := currentTimeMs + command.durationMs;
      x := x + [currentTimeMs];
      y := y + [command.rpm];
    }
    forall k | 0 <= k < |cmds|
      ensures y[2 * k] == cmds[k].rpm && y[2 * k + 1] == cmds[k].rpm
      ensures x[2 * k] == PlotStartMs + StartTime(cmds, k)
      ensures x[2 * k + 1] == x[2 * k] + cmds[k].durationMs
      ensures 0 < k ==> x[2 * k - 1] == x[2 * k]
    {
      ProjectedPoints(cmds, x, y, k);
    }
    if |cmds| > 0 {
      assert x[|x| - 1] == PlotStartMs + StartTime(cmds, |cmds|) by {
        assert (|x| - 1 + 1) / 2 == |cmds|;
      }
      StartTimeEnds(cmds, |cmds|);
    }
  }

  // ---------------------------------------------------------------------
  // How editing moves the timeline

  /** A newly added command starts at the old total time and does not change it. */
  lemma AddExtendsTimeline(cmds: seq<SpindleCommand>, id: nat)
    ensures StartTime(cmds + [NewCommand(id)], |cmds|) == TotalTime(cmds)
    ensures TotalTime(cmds + [NewCommand(id)]) == TotalTime(cmds)
  {
    var r := cmds + [NewCommand(id)];
    assert r[..|cmds|] == cmds;
    SumAppend(cmds, [NewCommand(id)]);
  }

  /** Sums depend on the durations only. */
  lemma {:induction false} SumSameDurations(a: seq<SpindleCommand>, b: seq<SpindleCommand>)
    requires |a| == |b|
    requires forall i :: 0 <= i < |a| ==> a[i].durationMs == b[i].durationMs
    ensures SumDurations(a) == SumDurations(b)
    decreases |a|
  {
    if a != [] {
      SumSameDurations(a[1..], b[1..]);
    }
  }

  /** Changing an RPM leaves every start time and the total time as they were. */
  lemma RpmEditKeepsTimeline(cmds: seq<SpindleCommand>, id: nat, rpm: int, index: int)
    ensures StartTime(UpdateById(cmds, id, SetRpm(rpm)), index) == StartTime(cmds, index)
    ensures TotalTime(UpdateById(cmds, id, SetRpm(rpm))) == TotalTime(cmds)
  {
    var r := UpdateById(cmds, id, SetRpm(rpm));
    var k := Clamp(index, |cmds|);
    SumSameDurations(r[..k], cmds[..k]);
    SumSameDurations(r, cmds);
  }

  /** Replacing the command at `k` changes the sum of any prefix that covers `k` by the difference of durations. */
  lemma SumReplace(cmds: seq<SpindleCommand>, k: nat, c: SpindleCommand, j: nat)
    requires k < j <= |cmds|
    ensures SumDurations(cmds[k := c][..j]) == SumDurations(cmds[..j]) - cmds[k].durationMs + c.durationMs
  {
    var r := cmds[k := c];
    assert r[..j] == cmds[..k] + ([c] + cmds[k + 1..j]);
    assert cmds[..j] == cmds[..k] + ([cmds[k]] + cmds[k + 1..j]);
    SumAppend(cmds[..k], [c] + cmds[k + 1..j]);
    SumAppend(cmds[..k], [cmds[k]] + cmds[k + 1..j]);
  }

  /**
   * With distinct ids, setting the duration of the command at position `k`
   * to `v` keeps the start times up to `k` and moves every later start time
   * and the total time by `v - old duration`.
   */
  lemma DurationEditShiftsTimeline(cmds: seq<SpindleCommand>, k: nat, v: int)
    requires IdsDistinct(cmds) && k < |cmds|
    ensures var r := UpdateById(cmds, cmds[k].id, SetDurationMs(v));
      (forall j :: 0 <= j <= k ==> StartTime(r, j) == StartTime(cmds, j)) &&
      (forall j :: k < j <= |cmds| ==> StartTime(r, j) == StartTime(cmds, j) - cmds[k].durationMs + v) &&
      TotalTime(r) == TotalTime(cmds) - cmds[k].durationMs + v
  {
    var c := Patched(cmds[k], SetDurationMs(v));
    UpdateAt(cmds, k, SetDurationMs(v));
    var r := cmds[k := c];
    forall j | 0 <= j <= k ensures StartTime(r, j) == StartTime(cmds, j) {
      assert r[..j] == cmds[..j];
    }
    forall j | k < j <= |cmds| ensures StartTime(r, j) == StartTime(cmds, j) - cmds[k].durationMs + v {
      SumReplace(cmds, k, c, j);
    }
    StartTimeEnds(r, |r|);
    StartTimeEnds(cmds, |cmds|);
  }

  /**
   * With distinct ids, removing the command at position `k` keeps the start
   * times before it, moves every later command earlier by its duration, and
   * shortens the total time by it.
   */
  lemma RemoveShiftsTimeline(cmds: seq<SpindleCommand>, k: nat)
    requires IdsDistinct(cmds) && k < |cmds|
    ensures var r := RemoveById(cmds, cmds[k].id);
      |r| == |cmds| - 1 &&
      (forall j :: 0 <= j <= k ==> StartTime(r, j) == StartTime(cmds, j)) &&
      (forall j :: k <= j <= |r| ==> StartTime(r, j) == StartTime(cmds, j + 1) - cmds[k].durationMs) &&
      TotalTime(r) == TotalTime(cmds) - cmds[k].durationMs
  {
    RemoveAt(cmds, k);
    var r := cmds[..k] + cmds[k + 1..];
    forall j | 0 <= j <= k ensures StartTime(r, j) == StartTime(cmds, j) {
      assert r[..j] == cmds[..j];
    }
    forall j | k <= j <= |r| ensures StartTime(r, j) == StartTime(cmds, j + 1) - cmds[k].durationMs {
      RemoveShiftAt(cmds, k, j);
    }
    StartTimeEnds(r, |r|);
    StartTimeEnds(cmds, |cmds|);
  }

  /** Dropping position `k` takes its duration out of every prefix sum that reached past it. */
  lemma RemoveShiftAt(cmds: seq<SpindleCommand>, k: nat, j: nat)
    requires k <= j < |cmds|
    ensures SumDurations((cmds[..k] + cmds[k + 1..])[..j]) == SumDurations(cmds[..j + 1]) - cmds[k].durationMs
  {
    var tail := cmds[k + 1..j + 1];
    assert (cmds[..k] + cmds[k + 1..])[..j] == cmds[..k] + tail;
    assert cmds[..j + 1] == cmds[..k] + ([cmds[k]] + tail);
    SumAppend(cmds[..k], tail);
    SumAppend(cmds[..k], [cmds[k]] + tail);
    SumAppend([cmds[k]], tail);
  }

  /**
   * The warm-up scenario: a 5 s stop then 10 s at 12000 rpm starts its
   * commands at 0 and 5000 and lasts 15000; after removing the first,
   * the remaining command starts at 0.
   */
  lemma WarmupTimelineScenario()
    ensures var cmds := [SpindleCommand(0, 0, 5000), SpindleCommand(1, 12000, 10000)];
      StartTime(cmds, 0) == 0 && StartTime(cmds, 1) == 5000 && TotalTime(cmds) == 15000 &&
      StartTime(RemoveById(cmds, 0), 0) == 0 && TotalTime(RemoveById(cmds, 0)) == 10000
  {
    var cmds := [SpindleCommand(0, 0, 5000), SpindleCommand(1, 12000, 10000)];
    RemoveShiftsTimeline(cmds, 0);
    StartTimeEnds(cmds, 2);
    StartTimeStep(cmds, 0);
  }
}
