/** Python's `str.splitlines()` without `keepends`. */
module Lines {
  import opened Chars

  /**
   * The lines of `s`: each boundary ends a line, "\r\n" is a single boundary,
   * and text after the last boundary is a line only when it is not empty.
   */
  function SplitLines(s: string): (lines: seq<string>)
    ensures forall l :: l in lines ==> All(l, NonLineBoundary)
    ensures |lines| <= |s|
    ensures lines == [] <==> s == []
    decreases |s|
  {
    if s == [] then []
    else
      var k := RunEnd(s, 0, NonLineBoundary);
      if k == |s| then [s]
      else
        var next := if s[k] == '\r' && k + 1 < |s| && s[k + 1] == '\n' then k + 2 else k + 1;
        [s[..k]] + SplitLines(s[next..])
  }

  /** The text whose lines are `lines`, each terminated by "\n". */
  function JoinLines(lines: seq<string>): string
  {
    if lines == [] then [] else lines[0] + "\n" + JoinLines(lines[1..])
  }

  /** Splitting undoes joining, for lines that hold no boundary of their own. */
  lemma {:induction false} SplitJoin(lines: seq<string>)
    requires forall l :: l in lines ==> All(l, NonLineBoundary)
    ensures SplitLines(JoinLines(lines)) == lines
  {
    if lines != [] {
      var l := lines[0];
      var s := JoinLines(lines);
      assert s == l + ("\n" + JoinLines(lines[1..]));
      assert s[..|l|] == l;
      assert s[|l|] == '\n';
      RunEndUnique(s, 0, NonLineBoundary, |l|);
      assert s[|l| + 1..] == JoinLines(lines[1..]);
      SplitJoin(lines[1..]);
    }
  }

  /** Text without a boundary is one line. */
  lemma SplitLast(a: string)
    requires a != [] && All(a, NonLineBoundary)
    ensures SplitLines(a) == [a]
  {
    assert a[0..|a|] == a;
    RunEndUnique(a, 0, NonLineBoundary, |a|);
  }

  /**
   * A single boundary character ends the line before it; the rest of the text
   * is split on its own. A carriage return followed by a line feed is the one
   * two-character boundary, handled by `SplitAtCrLf`.
   */
  lemma SplitAtBoundary(a: string, b: char, c: string)
    requires All(a, NonLineBoundary) && IsLineBoundary(b)
    requires !(b == '\r' && |c| > 0 && c[0] == '\n')
    ensures SplitLines(a + [b] + c) == [a] + SplitLines(c)
  {
    var s := a + [b] + c;
    assert s[0..|a|] == a && s[..|a|] == a;
    assert s[|a|] == b;
    RunEndUnique(s, 0, NonLineBoundary, |a|);
    assert s[|a| + 1..] == c;
  }

  /** "\r\n" ends the line before it as one boundary. */
  lemma SplitAtCrLf(a: string, c: string)
    requires All(a, NonLineBoundary)
    ensures SplitLines(a + "\r\n" + c) == [a] + SplitLines(c)
  {
    var s := a + "\r\n" + c;
    assert s[0..|a|] == a && s[..|a|] == a;
    assert s[|a|] == '\r' && s[|a| + 1] == '\n';
    RunEndUnique(s, 0, NonLineBoundary, |a|);
    assert s[|a| + 2..] == c;
  }
}
