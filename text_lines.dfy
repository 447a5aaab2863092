/**
 * Text made of newline-terminated lines, as the G-code generator writes it:
 * joining lines, and the split that recovers them.
 */
module TextLines {

  /** Each line followed by "\n", in order. */
  function Unlines(lines: seq<string>): (text: string)
    decreases |lines|
  {
    if lines == [] then "" else Unlines(lines[..|lines| - 1]) + lines[|lines| - 1] + "\n"
  }

  /** Joining distributes over concatenation of line lists. */
  lemma {:induction false} UnlinesAppend(a: seq<string>, b: seq<string>)
    ensures Unlines(a + b) == Unlines(a) + Unlines(b)
    decreases |b|
  {
    if b == [] {
      assert a + b == a;
    } else {
      var b' := b[..|b| - 1];
      assert (a + b)[..|a + b| - 1] == a + b';
      UnlinesAppend(a, b');
    }
  }

  lemma UnlinesOne(a: string)
    ensures Unlines([a]) == a + "\n"
  {
    assert [a][..0] == [];
  }

  lemma UnlinesTwo(a: string, b: string)
    ensures Unlines([a, b]) == a + "\n" + b + "\n"
  {
    assert [a, b][..1] == [a];
    UnlinesOne(a);
  }

  /** Two more lines extend the text by those lines. */
  lemma UnlinesPush(head: seq<string>, a: string, b: string)
    ensures Unlines(head + [a, b]) == Unlines(head) + a + "\n" + b + "\n"
  {
    UnlinesAppend(head, [a, b]);
    UnlinesTwo(a, b);
  }

  predicate NoNewline(line: string) {
    '\n' !in line
  }

  /** The position of the first "\n" of `s`, or `|s|` when there is none. */
  function FirstNewline(s: string): (k: nat)
    ensures k <= |s|
    ensures NoNewline(s[..k])
    ensures k < |s| ==> s[k] == '\n'
    decreases |s|
  {
    if s == [] then 0
    else if s[0] == '\n' then 0
    else
      var k := 1 + FirstNewline(s[1..]);
      assert s[..k] == [s[0]] + s[1..][..k - 1];
      k
  }

  /**
   * The lines of `s`: the pieces between "\n" characters, the last one
   * kept even when it has no terminating "\n".
   */
  function SplitLines(s: string): (lines: seq<string>)
    decreases |s|
  {
    if s == [] then []
    else
      var k := FirstNewline(s);
      if k == |s| then [s] else [s[..k]] + SplitLines(s[k + 1..])
  }

  /** Splitting recovers the lines that were joined, when none of them holds a "\n". */
  lemma {:induction false} SplitUnlines(lines: seq<string>)
    requires forall i :: 0 <= i < |lines| ==> NoNewline(lines[i])
    ensures SplitLines(Unlines(lines)) == lines
    decreases |lines|
  {
    if lines != [] {
      var rest := lines[1..];
      assert lines == [lines[0]] + rest;
      UnlinesAppend([lines[0]], rest);
      assert Unlines([lines[0]]) == lines[0] + "\n" by {
        assert [lines[0]][..0] == [];
      }
      var s := Unlines(lines);
      assert s == lines[0] + "\n" + Unlines(rest);
      var k := FirstNewline(s);
      assert s[|lines[0]|] == '\n';
      assert k == |lines[0]|;
      assert s[..k] == lines[0];
      assert s[k + 1..] == Unlines(rest);
      SplitUnlines(rest);
    }
  }
}
