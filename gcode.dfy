/**
 * G-code generation: the title as a comment line, two lines per command
 * (spindle stop or spindle on at the commanded speed, then a dwell for the
 * command's duration), and a closing stop and program end. A decoder reads
 * the program back, which shows the text carries the title and every
 * (rpm, duration) step of the list in order.
 */
module GCode {
  import opened Wrappers
  import opened JsText
  import opened TextLines
  import opened Commands
  import opened Timeline

  /** `(<title>)`: the title as a G-code comment. */
  function TitleLine(title: string): string {
    "(" + title + ")"
  }

  /** `M05` (spindle stop) for 0 rpm, otherwise `S<rpm> M03` (spindle on clockwise). */
  function SpindleLine(c: SpindleCommand): string {
    if c.rpm == 0 then "M05" else "S" + IntToString(c.rpm) + " M03"
  }

  /** `G04 P<durationMs>`: dwell for the command's duration. */
  function DwellLine(c: SpindleCommand): string {
    "G04 P" + IntToString(c.durationMs)
  }

  /** The two lines of each command, in list order. */
  function CommandLines(cmds: seq<SpindleCommand>): seq<string>
    decreases |cmds|
  {
    if cmds == [] then []
    else
      var last := cmds[|cmds| - 1];
      CommandLines(cmds[..|cmds| - 1]) + [SpindleLine(last), DwellLine(last)]
  }

  /** The lines of the whole program. */
  function ProgramLines(title: string, cmds: seq<SpindleCommand>): seq<string> {
    [TitleLine(title)] + CommandLines(cmds) + ["M05", "M30"]
  }

  /** The program text: every line terminated by "\n". */
  function GCodeText(title: string, cmds: seq<SpindleCommand>): string {
    Unlines(ProgramLines(title, cmds))
  }

  /** The text written once the title and the first `i` commands have been emitted. */
  function Emitted(title: string, cmds: seq<SpindleCommand>, i: nat): string
    requires i <= |cmds|
  {
    Unlines([TitleLine(title)] + CommandLines(cmds[..i]))
  }

  /** Before the loop, only the title comment has been written. */
  lemma EmitTitle(title: string, cmds: seq<SpindleCommand>)
    ensures "(" + title + ")\n" == Emitted(title, cmds, 0)
  {
    assert [TitleLine(title)] + CommandLines(cmds[..0]) == [TitleLine(title)];
    UnlinesOne(TitleLine(title));
  }

  /** The lines so far grow by the two lines of the next command. */
  lemma EmitCommand(title: string, cmds: seq<SpindleCommand>, i: nat)
    requires i < |cmds|
    ensures Emitted(title, cmds, i + 1) ==
      Unlines([TitleLine(title)] + CommandLines(cmds[..i]) + [SpindleLine(cmds[i]), DwellLine(cmds[i])])
  {
    assert cmds[..i + 1][..i] == cmds[..i];
    assert [TitleLine(title)] + CommandLines(cmds[..i + 1]) ==
      [TitleLine(title)] + CommandLines(cmds[..i]) + [SpindleLine(cmds[i]), DwellLine(cmds[i])];
  }

  /** What the loop appends for a stopped command: its stop line and its dwell line. */
  lemma StopStep(lines: seq<string>, d: string)
    ensures Unlines(lines) + "M05\n" + "G04 P" + d + "\n" == Unlines(lines + ["M05", "G04 P" + d])
  {
    UnlinesPush(lines, "M05", "G04 P" + d);
    assert "M05\n" == "M05" + "\n";
  }

  /** What the loop appends for a running command: its spindle-on line and its dwell line. */
  lemma RunStep(lines: seq<string>, r: string, d: string)
    ensures Unlines(lines) + "S" + r + " M03\n" + "G04 P" + d + "\n" == Unlines(lines + ["S" + r + " M03", "G04 P" + d])
  {
    UnlinesPush(lines, "S" + r + " M03", "G04 P" + d);
    assert " M03\n" == " M03" + "\n";
  }

  /** A stopped command appends `M05` and its dwell. */
  lemma EmitStop(title: string, cmds: seq<SpindleCommand>, i: nat)
    requires i < |cmds| && cmds[i].rpm == 0
    ensures Emitted(title, cmds, i) + "M05\n" + "G04 P" + IntToString(cmds[i].durationMs) + "\n" == Emitted(title, cmds, i + 1)
  {
    EmitCommand(title, cmds, i);
    StopStep([TitleLine(title)] + CommandLines(cmds[..i]), IntToString(cmds[i].durationMs));
  }

  /** A running command appends `S<rpm> M03` and its dwell. */
  lemma EmitRun(title: string, cmds: seq<SpindleCommand>, i: nat)
    requires i < |cmds| && cmds[i].rpm != 0
    ensures Emitted(title, cmds, i) + "S" + IntToString(cmds[i].rpm) + " M03\n" + "G04 P" + IntToString(cmds[i].durationMs) + "\n" ==
            Emitted(title, cmds, i + 1)
  {
    EmitCommand(title, cmds, i);
    RunStep([TitleLine(title)] + CommandLines(cmds[..i]), IntToString(cmds[i].rpm), IntToString(cmds[i].durationMs));
  }

  /** After the last command, `M05` and `M30` complete the program. */
  lemma EmitEnd(title: string, cmds: seq<SpindleCommand>)
    ensures Emitted(title, cmds, |cmds|) + "M05\n" + "M30\n" == GCodeText(title, cmds)
  {
    assert cmds[..|cmds|] == cmds;
    UnlinesPush([TitleLine(title)] + CommandLines(cmds), "M05", "M30");
    assert "M05\n" + "M30\n" == "M05" + "\n" + "M30" + "\n";
  }

  /**
   * `generateGCode`: appends the title comment, then for each command its
   * spindle line and its dwell line, then `M05` and `M30`. The running
   * time it keeps is never read and does not reach the text.
   */
  method GenerateGCode(title: string, cmds: seq<SpindleCommand>) returns (gcode: string)
    ensures gcode == GCodeText(title, cmds)
  {
    gcode := "(" + title + ")\n";
    var currentTimeMs := 0;
    EmitTitle(title, cmds);
    for i := 0 to |cmds|
      invariant gcode == Emitted(title, cmds, i)
    {
      var command := cmds[i];
      if command.rpm == 0 {
        EmitStop(title, cmds, i);
        gcode := gcode + "M05\n";
        currentTimeMs := currentTimeMs + command.durationMs;
        gcode := gcode + "G04 P" + IntToString(command.durationMs) + "\n";
        continue;
      }
      EmitRun(title, cmds, i);
      gcode := gcode + "S" + IntToString(command.rpm) + " M03\n";
      currentTimeMs := currentTimeMs + command.durationMs;
      gcode := gcode + "G04 P" + IntToString(command.durationMs) + "\n";
    }
    EmitEnd(title, cmds);
    gcode := gcode + "M05\n";
    gcode := gcode + "M30\n";
  }

  /** A non-empty list's lines are those of all but its last command, then the last command's two lines. */
  lemma CommandLinesPush(cmds: seq<SpindleCommand>)
    requires cmds != []
    ensures CommandLines(cmds) == CommandLines(cmds[..|cmds| - 1]) + [SpindleLine(cmds[|cmds| - 1]), DwellLine(cmds[|cmds| - 1])]
  {
  }

  /** Command `k` contributes its spindle line at `2k` and its dwell line at `2k + 1`. */
  lemma {:induction false} CommandLineAt(cmds: seq<SpindleCommand>, k: nat)
    requires k < |cmds|
    ensures |CommandLines(cmds)| == 2 * |cmds|
    ensures CommandLines(cmds)[2 * k] == SpindleLine(cmds[k])
    ensures CommandLines(cmds)[2 * k + 1] == DwellLine(cmds[k])
    decreases |cmds|
  {
    var init := cmds[..|cmds| - 1];
    var body := CommandLines(init);
    CommandLinesPush(cmds);
    CommandLinesLength(init);
    if k < |init| {
      CommandLineAt(init, k);
      assert init[k] == cmds[k];
      assert CommandLines(cmds)[2 * k] == body[2 * k] && CommandLines(cmds)[2 * k + 1] == body[2 * k + 1];
    } else {
      assert 2 * k == |body|;
      assert CommandLines(cmds)[|body|] == SpindleLine(cmds[k]) && CommandLines(cmds)[|body| + 1] == DwellLine(cmds[k]);
    }
  }

  lemma {:induction false} CommandLinesLength(cmds: seq<SpindleCommand>)
    ensures |CommandLines(cmds)| == 2 * |cmds|
    decreases |cmds|
  {
    if cmds != [] {
      CommandLinesLength(cmds[..|cmds| - 1]);
    }
  }

  /** Each command contributes exactly its spindle line and its dwell line, in list order. */
  lemma CommandLinesAt(cmds: seq<SpindleCommand>)
    ensures |CommandLines(cmds)| == 2 * |cmds|
    ensures forall k :: 0 <= k < |cmds| ==>
      CommandLines(cmds)[2 * k] == SpindleLine(cmds[k]) && CommandLines(cmds)[2 * k + 1] == DwellLine(cmds[k])
  {
    CommandLinesLength(cmds);
    forall k | 0 <= k < |cmds|
      ensures CommandLines(cmds)[2 * k] == SpindleLine(cmds[k]) && CommandLines(cmds)[2 * k + 1] == DwellLine(cmds[k])
    {
      CommandLineAt(cmds, k);
    }
  }

  /** Where two consecutive lines of a program body sit among the program's lines. */
  lemma FramedPair(t: string, body: seq<string>, j: nat, a: string, b: string)
    requires j + 1 < |body| && body[j] == a && body[j + 1] == b
    ensures |[t] + body + ["M05", "M30"]| == |body| + 3
    ensures ([t] + body + ["M05", "M30"])[j + 1] == a && ([t] + body + ["M05", "M30"])[j + 2] == b
  {
  }

  /**
   * The program has `2n + 3` lines: the title comment; for command `k`,
   * `M05` or `S<rpm> M03` at line `2k + 1` and `G04 P<durationMs>` at
   * line `2k + 2`; then `M05` and `M30`.
   */
  lemma ProgramShape(title: string, cmds: seq<SpindleCommand>)
    ensures |ProgramLines(title, cmds)| == 2 * |cmds| + 3
    ensures ProgramLines(title, cmds)[0] == "(" + title + ")"
    ensures forall k :: 0 <= k < |cmds| ==>
      ProgramLines(title, cmds)[2 * k + 1] == (if cmds[k].rpm == 0 then "M05" else "S" + IntToString(cmds[k].rpm) + " M03") &&
      ProgramLines(title, cmds)[2 * k + 2] == "G04 P" + IntToString(cmds[k].durationMs)
    ensures ProgramLines(title, cmds)[2 * |cmds| + 1] == "M05" && ProgramLines(title, cmds)[2 * |cmds| + 2] == "M30"
  {
    CommandLinesLength(cmds);
    forall k | 0 <= k < |cmds|
      ensures ProgramLines(title, cmds)[2 * k + 1] == SpindleLine(cmds[k])
      ensures ProgramLines(title, cmds)[2 * k + 2] == DwellLine(cmds[k])
    {
      ProgramLineAt(title, cmds, k);
    }
  }

  lemma ProgramLinesFrame(title: string, cmds: seq<SpindleCommand>)
    ensures ProgramLines(title, cmds) == [TitleLine(title)] + CommandLines(cmds) + ["M05", "M30"]
  {
  }

  /** Command `k`'s lines sit at `2k + 1` and `2k + 2`, after the title. */
  lemma ProgramLineAt(title: string, cmds: seq<SpindleCommand>, k: nat)
    requires k < |cmds|
    ensures |ProgramLines(title, cmds)| == 2 * |cmds| + 3
    ensures ProgramLines(title, cmds)[2 * k + 1] == SpindleLine(cmds[k])
    ensures ProgramLines(title, cmds)[2 * k + 2] == DwellLine(cmds[k])
  {
    ProgramLinesFrame(title, cmds);
    CommandLineAt(cmds, k);
    FramedPair(TitleLine(title), CommandLines(cmds), 2 * k, SpindleLine(cmds[k]), DwellLine(cmds[k]));
  }

  /** The text of a program frame around any body of lines. */
  lemma FrameText(title: string, body: seq<string>)
    ensures Unlines([TitleLine(title)] + body + ["M05", "M30"]) == "(" + title + ")\n" + Unlines(body) + "M05\nM30\n"
  {
    UnlinesAppend([TitleLine(title)], body);
    UnlinesAppend([TitleLine(title)] + body, ["M05", "M30"]);
    UnlinesOne(TitleLine(title));
    UnlinesTwo("M05", "M30");
    assert "M05\nM30\n" == "M05" + "\n" + "M30" + "\n";
  }

  /** The text is the title comment, the command lines, then `M05` and `M30`, in that order. */
  lemma ProgramFrame(title: string, cmds: seq<SpindleCommand>)
    ensures GCodeText(title, cmds) == "(" + title + ")\n" + Unlines(CommandLines(cmds)) + "M05\nM30\n"
    ensures var text := GCodeText(title, cmds);
      |text| >= |title| + 11 &&
      text[..|title| + 3] == "(" + title + ")\n" &&
      text[|text| - 8..] == "M05\nM30\n"
  {
    FrameText(title, CommandLines(cmds));
    var head, tail := "(" + title + ")\n", "M05\nM30\n";
    var text := head + Unlines(CommandLines(cmds)) + tail;
    assert text[..|head|] == head;
    assert text[|text| - |tail|..] == tail;
  }

  /** An empty list yields exactly the title comment, `M05` and `M30`. */
  lemma EmptyProgram(title: string)
    ensures GCodeText(title, []) == "(" + title + ")\nM05\nM30\n"
  {
    FrameText(title, []);
  }

  /** No generated line but the title can hold a line break. */
  lemma CommandLinesNoNewline(cmds: seq<SpindleCommand>)
    ensures forall i :: 0 <= i < |CommandLines(cmds)| ==> NoNewline(CommandLines(cmds)[i])
  {
    CommandLinesLength(cmds);
    forall i | 0 <= i < |CommandLines(cmds)| ensures NoNewline(CommandLines(cmds)[i]) {
      var k := i / 2;
      var c := cmds[k];
      CommandLineAt(cmds, k);
      IntToStringShape(c.rpm);
      IntToStringShape(c.durationMs);
      assert i == 2 * k || i == 2 * k + 1;
    }
  }

  /**
   * When the title holds no line break, the text splits into exactly the
   * program's lines, `2n + 3` of them.
   */
  lemma ProgramLineCount(title: string, cmds: seq<SpindleCommand>)
    requires NoNewline(title)
    ensures SplitLines(GCodeText(title, cmds)) == ProgramLines(title, cmds)
    ensures |SplitLines(GCodeText(title, cmds))| == 2 * |cmds| + 3
  {
    var body := CommandLines(cmds);
    var lines := ProgramLines(title, cmds);
    CommandLinesNoNewline(cmds);
    CommandLinesLength(cmds);
    forall i | 0 <= i < |lines| ensures NoNewline(lines[i]) {
      if i == 0 {
        assert lines[0] == "(" + title + ")";
      } else if i <= |body| {
        assert lines[i] == body[i - 1];
      }
    }
    SplitUnlines(lines);
  }

  // ---------------------------------------------------------------------
  // Reading a program back

  /** What the program says about one command: its speed and its dwell. */
  datatype Step = Step(rpm: int, durationMs: int)

  datatype Program = Program(title: string, steps: seq<Step>)

  /** The speed and dwell of every command, in order. */
  function Steps(cmds: seq<SpindleCommand>): seq<Step> {
    seq(|cmds|, i requires 0 <= i < |cmds| => Step(cmds[i].rpm, cmds[i].durationMs))
  }

  /** `M05` reads as 0 rpm; `S<n> M03` as n rpm. */
  function DecodeSpindle(line: string): Option<int> {
    if line == "M05" then Some(0)
    else if |line| >= 5 && line[0] == 'S' && line[|line| - 4..] == " M03" then ParseInt(line[1..|line| - 4])
    else None
  }

  /** `G04 P<n>` reads as a dwell of n ms. */
  function DecodeDwell(line: string): Option<int> {
    if |line| >= 5 && line[..5] == "G04 P" then ParseInt(line[5..]) else None
  }

  /** Reads the command lines two at a time. */
  function DecodeCommandLines(lines: seq<string>): Option<seq<Step>>
    decreases |lines|
  {
    if lines == [] then Some([])
    else if |lines| < 2 then None
    else
      match (DecodeCommandLines(lines[..|lines| - 2]), DecodeSpindle(lines[|lines| - 2]), DecodeDwell(lines[|lines| - 1]))
      case (Some(steps), Some(rpm), Some(d)) => Some(steps + [Step(rpm, d)])
      case _ => None
  }

  /** Reads a whole program: the title comment, the command lines, `M05` and `M30`. */
  function DecodeProgram(text: string): Option<Program> {
    var lines := SplitLines(text);
    if |lines| >= 3 && |lines[0]| >= 2 && lines[0][0] == '(' && lines[0][|lines[0]| - 1] == ')'
       && lines[|lines| - 2] == "M05" && lines[|lines| - 1] == "M30"
    then
      match DecodeCommandLines(lines[1..|lines| - 2])
      case Some(steps) => Some(Program(lines[0][1..|lines[0]| - 1], steps))
      case None => None
    else None
  }

  /** The digits between `S` and ` M03` are the speed. */
  lemma SpindleOnDecodes(digits: string, rpm: int)
    requires |digits| >= 1 && ParseInt(digits) == Some(rpm)
    ensures DecodeSpindle("S" + digits + " M03") == Some(rpm)
  {
    var line := "S" + digits + " M03";
    assert line[0] == 'S' && line != "M05";
    assert line[|line| - 4..] == " M03";
    assert line[1..|line| - 4] == digits;
  }

  lemma SpindleLineDecodes(c: SpindleCommand)
    ensures DecodeSpindle(SpindleLine(c)) == Some(c.rpm)
  {
    if c.rpm != 0 {
      IntToStringShape(c.rpm);
      IntToStringRoundTrip(c.rpm);
      SpindleOnDecodes(IntToString(c.rpm), c.rpm);
    }
  }

  /** The digits after `G04 P` are the dwell. */
  lemma DwellDecodes(digits: string, d: int)
    requires ParseInt(digits) == Some(d)
    ensures DecodeDwell("G04 P" + digits) == Some(d)
  {
    var line := "G04 P" + digits;
    assert line[..5] == "G04 P";
    assert line[5..] == digits;
  }

  lemma DwellLineDecodes(c: SpindleCommand)
    ensures DecodeDwell(DwellLine(c)) == Some(c.durationMs)
  {
    IntToStringRoundTrip(c.durationMs);
    DwellDecodes(IntToString(c.durationMs), c.durationMs);
  }

  /** Reading two more lines appends the step they spell. */
  lemma DecodePush(head: seq<string>, a: string, b: string, steps: seq<Step>, rpm: int, d: int)
    requires DecodeCommandLines(head) == Some(steps)
    requires DecodeSpindle(a) == Some(rpm) && DecodeDwell(b) == Some(d)
    ensures DecodeCommandLines(head + [a, b]) == Some(steps + [Step(rpm, d)])
  {
    var lines := head + [a, b];
    assert lines[..|lines| - 2] == head;
  }

  lemma StepsPush(cmds: seq<SpindleCommand>)
    requires cmds != []
    ensures Steps(cmds) == Steps(cmds[..|cmds| - 1]) + [Step(cmds[|cmds| - 1].rpm, cmds[|cmds| - 1].durationMs)]
  {
  }

  /** The command lines read back as the (rpm, duration) steps of the list, in order. */
  lemma {:induction false} CommandLinesDecode(cmds: seq<SpindleCommand>)
    ensures DecodeCommandLines(CommandLines(cmds)) == Some(Steps(cmds))
    decreases |cmds|
  {
    if cmds != [] {
      var init, last := cmds[..|cmds| - 1], cmds[|cmds| - 1];
      CommandLinesDecode(init);
      SpindleLineDecodes(last);
      DwellLineDecodes(last);
      DecodePush(CommandLines(init), SpindleLine(last), DwellLine(last), Steps(init), last.rpm, last.durationMs);
      StepsPush(cmds);
    } else {
      assert Steps(cmds) == [];
    }
  }

  /** The title and the body lines come back out of a framed program's lines. */
  lemma FrameParts(title: string, body: seq<string>)
    ensures var lines := [TitleLine(title)] + body + ["M05", "M30"];
      |lines| >= 3 && lines[0] == "(" + title + ")" && lines[1..|lines| - 2] == body &&
      lines[|lines| - 2] == "M05" && lines[|lines| - 1] == "M30" &&
      lines[0][1..|lines[0]| - 1] == title
  {
  }

  /**
   * When the title holds no line break, the generated text reads back as
   * the title and the (rpm, duration) step of every command, in order:
   * nothing of the timeline is lost in generation.
   */
  lemma GCodeRoundTrip(title: string, cmds: seq<SpindleCommand>)
    requires NoNewline(title)
    ensures DecodeProgram(GCodeText(title, cmds)) == Some(Program(title, Steps(cmds)))
  {
    ProgramLineCount(title, cmds);
    FrameParts(title, CommandLines(cmds));
    CommandLinesDecode(cmds);
  }

  /** The dwells of a program add up to its running time. */
  function TotalDwell(steps: seq<Step>): int
    decreases |steps|
  {
    if steps == [] then 0 else steps[0].durationMs + TotalDwell(steps[1..])
  }

  /** The program's dwells add up to the list's total time. */
  lemma DwellsMatchTotalTime(cmds: seq<SpindleCommand>)
    ensures TotalDwell(Steps(cmds)) == TotalTime(cmds)
  {
    DwellsMatchSum(cmds);
  }

  lemma {:induction false} DwellsMatchSum(cmds: seq<SpindleCommand>)
    ensures TotalDwell(Steps(cmds)) == SumDurations(cmds)
    decreases |cmds|
  {
    if cmds != [] {
      assert Steps(cmds)[1..] == Steps(cmds[1..]);
      DwellsMatchSum(cmds[1..]);
    }
  }

  /** The decimal text of 5000. */
  lemma Text5000()
    ensures IntToString(5000) == "5000"
  {
    assert NatToString(5) == "5";
    assert NatToString(50) == "50";
    assert NatToString(500) == "500";
  }

  /** The decimal text of 10000. */
  lemma Text10000()
    ensures IntToString(10000) == "10000"
  {
    assert NatToString(1) == "1";
    assert NatToString(10) == "10";
    assert NatToString(100) == "100";
    assert NatToString(1000) == "1000";
  }

  /** The decimal text of 12000. */
  lemma Text12000()
    ensures IntToString(12000) == "12000"
  {
    assert NatToString(1) == "1";
    assert NatToString(12) == "12";
    assert NatToString(120) == "120";
    assert NatToString(1200) == "1200";
  }

  /** The lines of the warm-up's first command: a stop, then a 5 s dwell. */
  lemma WarmupStopLines()
    ensures SpindleLine(SpindleCommand(0, 0, 5000)) == "M05"
    ensures DwellLine(SpindleCommand(0, 0, 5000)) == "G04 P5000"
  {
    Text5000();
  }

  /** The warm-up's second command turns the spindle on at 12000 rpm. */
  lemma WarmupRunSpindle()
    ensures SpindleLine(SpindleCommand(1, 12000, 10000)) == "S12000 M03"
  {
    Text12000();
  }

  /** The warm-up's second command then dwells for 10 s. */
  lemma WarmupRunDwell()
    ensures DwellLine(SpindleCommand(1, 12000, 10000)) == "G04 P10000"
  {
    Text10000();
  }

  /** The command lines of the warm-up scenario. */
  lemma WarmupCommandLines()
    ensures CommandLines([SpindleCommand(0, 0, 5000), SpindleCommand(1, 12000, 10000)]) ==
      ["M05", "G04 P5000", "S12000 M03", "G04 P10000"]
  {
    var cmds := [SpindleCommand(0, 0, 5000), SpindleCommand(1, 12000, 10000)];
    WarmupStopLines();
    WarmupRunSpindle();
    WarmupRunDwell();
    assert cmds[..1] == [cmds[0]] && cmds[..1][..0] == [];
    assert CommandLines(cmds[..1]) == [SpindleLine(cmds[0]), DwellLine(cmds[0])];
    assert CommandLines(cmds) == CommandLines(cmds[..1]) + [SpindleLine(cmds[1]), DwellLine(cmds[1])];
  }

  /** The text of a program with four command lines. */
  lemma FourLineProgramText(title: string, a: string, b: string, c: string, d: string)
    ensures Unlines([TitleLine(title)] + [a, b, c, d] + ["M05", "M30"]) ==
      "(" + title + ")\n" + (a + "\n") + (b + "\n") + (c + "\n") + (d + "\n") + "M05\n" + "M30\n"
  {
    FrameText(title, [a, b, c, d]);
    assert [a, b, c, d] == [a, b] + [c, d];
    UnlinesAppend([a, b], [c, d]);
    UnlinesTwo(a, b);
    UnlinesTwo(c, d);
    assert "M05\nM30\n" == "M05\n" + "M30\n";
  }

  /** The warm-up scenario: a 5 s stop, then 10 s at 12000 rpm, line by line. */
  lemma WarmupProgramScenario()
    ensures GCodeText("Warm-up", [SpindleCommand(0, 0, 5000), SpindleCommand(1, 12000, 10000)]) ==
      "(Warm-up)\n" + "M05\n" + "G04 P5000\n" + "S12000 M03\n" + "G04 P10000\n" + "M05\n" + "M30\n"
  {
    WarmupCommandLines();
    FourLineProgramText("Warm-up", "M05", "G04 P5000", "S12000 M03", "G04 P10000");
    assert "(" + "Warm-up" + ")\n" == "(Warm-up)\n";
    assert "M05" + "\n" == "M05\n";
    assert "G04 P5000" + "\n" == "G04 P5000\n";
    assert "S12000 M03" + "\n" == "S12000 M03\n";
    assert "G04 P10000" + "\n" == "G04 P10000\n";
  }
}
