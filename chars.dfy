/**
 * Character classes used by the regular expressions and by line splitting.
 *
 * `\d` is modelled as the ASCII digits only; `\s` as the characters Python's
 * `str.isspace` accepts; line boundaries as the ones `str.splitlines` knows.
 */
module Chars {

  predicate IsDigit(c: char) {
    '0' <= c <= '9'
  }

  /** The class `[a-fA-F0-9]`. */
  predicate IsHexDigit(c: char) {
    IsDigit(c) || 'a' <= c <= 'f' || 'A' <= c <= 'F'
  }

  /** Python's whitespace: what `\s` matches and `\S` does not. */
  predicate IsSpace(c: char) {
    c == ' ' || '\t' <= c <= '\r' || '\U{1C}' <= c <= '\U{1F}'
    || c == '\U{85}' || c == '\U{A0}' || c == '\U{1680}'
    || '\U{2000}' <= c <= '\U{200A}' || c == '\U{2028}' || c == '\U{2029}'
    || c == '\U{202F}' || c == '\U{205F}' || c == '\U{3000}'
  }

  /** The characters at which `str.splitlines` ends a line ("\r\n" counts as one boundary). */
  predicate IsLineBoundary(c: char) {
    '\n' <= c <= '\r' || '\U{1C}' <= c <= '\U{1E}'
    || c == '\U{85}' || c == '\U{2028}' || c == '\U{2029}'
  }

  /** The classes a maximal run of characters is taken over. */
  datatype CharClass = Digit | NonSpace | NonLineBoundary

  predicate In(c: char, k: CharClass) {
    match k
    case Digit => IsDigit(c)
    case NonSpace => !IsSpace(c)
    case NonLineBoundary => !IsLineBoundary(c)
  }

  predicate All(t: string, k: CharClass) {
    forall j :: 0 <= j < |t| ==> In(t[j], k)
  }

  /** The end of the longest run of class `k` that starts at `i`. */
  function RunEnd(s: string, i: nat, k: CharClass): (e: nat)
    requires i <= |s|
    ensures i <= e <= |s|
    ensures All(s[i..e], k)
    ensures e == |s| || !In(s[e], k)
    decreases |s| - i
  {
    if i < |s| && In(s[i], k) then RunEnd(s, i + 1, k) else i
  }

  /** No run of class `k` starting at `i` reaches past RunEnd. */
  lemma {:induction false} RunEndLongest(s: string, i: nat, k: CharClass, e: nat)
    requires i <= e <= |s|
    requires All(s[i..e], k)
    ensures e <= RunEnd(s, i, k)
    decreases e - i
  {
    if i < e {
      assert s[i..e][0] == s[i];
      assert s[i + 1..e] == s[i..e][1..];
      RunEndLongest(s, i + 1, k, e);
    }
  }

  /** A run of class `k` that is followed by a character outside `k` is the one RunEnd finds. */
  lemma RunEndUnique(s: string, i: nat, k: CharClass, e: nat)
    requires i <= e <= |s|
    requires All(s[i..e], k)
    requires e == |s| || !In(s[e], k)
    ensures RunEnd(s, i, k) == e
  {
    RunEndLongest(s, i, k, e);
  }

  /** A slice of a slice is a slice of the whole. */
  lemma SubSlice(s: string, i: nat, j: nat, a: nat, b: nat)
    requires i <= j <= |s| && a <= b <= j - i
    ensures s[i..j][a..b] == s[i + a..i + b]
  {
    var u, v := s[i..j][a..b], s[i + a..i + b];
    assert |u| == |v|;
    forall k | 0 <= k < |u|
      ensures u[k] == v[k]
    {
      assert u[k] == s[i..j][a + k] == s[i + a + k];
    }
  }
}
