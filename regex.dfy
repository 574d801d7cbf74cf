/**
 * The five regular expressions the scanners use, with Python `re.search`
 * semantics: the leftmost start position at which the pattern matches, and at
 * that position the match the backtracking engine finds first. For these five
 * patterns that first match is the longest one at that position, because every
 * `+` is greedy and is followed by a character its class excludes (or by the
 * end of the text).
 *
 * `$` is modelled as the end of the text. Python's `$` also matches just
 * before a final "\n"; the two readings agree on every text without a line
 * boundary, which includes every line `str.splitlines` produces.
 */
module Regex {
  import opened Wrappers
  import opened Chars

  /** The half-open range `[start, end)` of a match in the searched text. */
  datatype Span = Span(start: nat, end: nat)

  datatype Pattern =
    | Ipv4           // \d+\.\d+\.\d+\.\d+
    | DottedMac      // ([a-fA-F0-9]{4}\.){2}[a-fA-F0-9]{4}
    | TrailingToken  // (\S+)$
    | LossToken      // \((\d+)% loss\)
    | AverageToken   // Average = (\d+)ms

  /** `t` is in the language of `\d+(\.\d+){n}`. */
  ghost predicate DigitGroups(t: string, n: nat)
    decreases n, 1
  {
    if n == 0 then |t| > 0 && All(t, Digit)
    else exists k: nat :: FirstGroup(t, n, k)
  }

  /** `t[..k]` is the first digit group of `t` and a dot follows it: the rest of `t` is the other `n - 1` groups. */
  ghost predicate FirstGroup(t: string, n: nat, k: nat)
    requires n > 0
    decreases n, 0
  {
    0 < k < |t| && t[k] == '.' && All(t[..k], Digit) && DigitGroups(t[k + 1..], n - 1)
  }

  /** `t` is in the language of `([a-fA-F0-9]{4}\.){2}[a-fA-F0-9]{4}`. */
  predicate MacShape(t: string) {
    |t| == 14 && Hex4(t, 0) && t[4] == '.' && Hex4(t, 5) && t[9] == '.' && Hex4(t, 10)
  }

  /** `[a-fA-F0-9]{4}` at position `i` of `t`. */
  predicate Hex4(t: string, i: nat)
    requires i + 4 <= |t|
  {
    IsHexDigit(t[i]) && IsHexDigit(t[i + 1]) && IsHexDigit(t[i + 2]) && IsHexDigit(t[i + 3])
  }

  /** The regular-expression meaning: pattern `p`, tried at position `i` of `s`, can match `s[i..e]`. */
  ghost predicate Matches(p: Pattern, s: string, i: nat, e: nat) {
    i <= e <= |s| &&
    var t := s[i..e];
    match p
    case Ipv4 => DigitGroups(t, 3)
    case DottedMac => MacShape(t)
    case TrailingToken => e == |s| && |t| > 0 && All(t, NonSpace)
    case LossToken => |t| >= 9 && t[0] == '(' && All(t[1..|t| - 7], Digit) && t[|t| - 7..] == "% loss)"
    case AverageToken => |t| >= 13 && t[..10] == "Average = " && All(t[10..|t| - 2], Digit) && t[|t| - 2..] == "ms"
  }

  ghost predicate HasMatch(p: Pattern, s: string) {
    exists i: nat, e: nat :: Matches(p, s, i, e)
  }

  /** What `re.search` reports: the leftmost match, and the longest one at that start. */
  ghost predicate LeftmostLongest(p: Pattern, s: string, i: nat, e: nat) {
    Matches(p, s, i, e)
    && (forall j: nat, e': nat :: Matches(p, s, j, e') ==> i <= j)
    && (forall e': nat :: Matches(p, s, i, e') ==> e' <= e)
  }

  /** The greedy matcher for `\d+(\.\d+){n}` at position `i`: the end of its match, if any. */
  function GroupsMatchAt(s: string, i: nat, n: nat): (r: Option<nat>)
    requires i <= |s|
    ensures r.Some? ==> i < r.value <= |s|
    decreases n
  {
    var e := RunEnd(s, i, Digit);
    if e == i then None
    else if n == 0 then Some(e)
    else if e < |s| && s[e] == '.' then GroupsMatchAt(s, e + 1, n - 1)
    else None
  }

  /** The greedy matcher for pattern `p` at position `i`: the end of its match, if any. */
  function MatchAt(p: Pattern, s: string, i: nat): (r: Option<nat>)
    requires i <= |s|
    ensures r.Some? ==> i < r.value <= |s|
  {
    match p
    case Ipv4 => GroupsMatchAt(s, i, 3)
    case DottedMac =>
      if i + 14 <= |s| && MacShape(s[i..i + 14]) then Some(i + 14) else None
    case TrailingToken =>
      var e := RunEnd(s, i, NonSpace);
      if i < e && e == |s| then Some(e) else None
    case LossToken =>
      if i < |s| && s[i] == '(' then
        var e := RunEnd(s, i + 1, Digit);
        if i + 1 < e && e + 7 <= |s| && s[e..e + 7] == "% loss)" then Some(e + 7) else None
      else None
    case AverageToken =>
      if i + 10 <= |s| && s[i..i + 10] == "Average = " then
        var e := RunEnd(s, i + 10, Digit);
        if i + 10 < e && e + 2 <= |s| && s[e..e + 2] == "ms" then Some(e + 2) else None
      else None
  }

  lemma {:induction false} GroupsMatchAtSound(s: string, i: nat, n: nat)
    requires i <= |s|
    requires GroupsMatchAt(s, i, n).Some?
    ensures i <= GroupsMatchAt(s, i, n).value <= |s|
    ensures DigitGroups(s[i..GroupsMatchAt(s, i, n).value], n)
    decreases n
  {
    var e := RunEnd(s, i, Digit);
    if n > 0 {
      GroupsMatchAtSound(s, e + 1, n - 1);
      var f := GroupsMatchAt(s, e + 1, n - 1).value;
      var t := s[i..f];
      assert t[..e - i] == s[i..e];
      assert t[e - i + 1..] == s[e + 1..f];
      assert FirstGroup(t, n, e - i);
    }
  }

  lemma {:induction false} GroupsMatchAtComplete(s: string, i: nat, n: nat, e: nat)
    requires i <= e <= |s|
    requires DigitGroups(s[i..e], n)
    ensures GroupsMatchAt(s, i, n).Some? && e <= GroupsMatchAt(s, i, n).value
    decreases n
  {
    if n == 0 {
      assert |s[i..e]| > 0 && All(s[i..e], Digit);
      RunEndLongest(s, i, Digit, e);
    } else {
      var k := GroupSplit(s, i, n, e);
      RunEndUnique(s, i, Digit, i + k);
      assert GroupsMatchAt(s, i, n) == GroupsMatchAt(s, i + k + 1, n - 1);
      GroupsMatchAtComplete(s, i + k + 1, n - 1, e);
    }
  }

  /** The first group and dot of a `\d+(\.\d+){n}` match at `i`, stated on `s` itself. */
  lemma GroupSplit(s: string, i: nat, n: nat, e: nat) returns (k: nat)
    requires i <= e <= |s| && n > 0
    requires DigitGroups(s[i..e], n)
    ensures 0 < k && i + k < e && s[i + k] == '.'
    ensures All(s[i..i + k], Digit) && DigitGroups(s[i + k + 1..e], n - 1)
  {
    var t := s[i..e];
    k :| FirstGroup(t, n, k);
    assert t[..k] == s[i..i + k];
    assert t[k + 1..] == s[i + k + 1..e];
  }

  /** The greedy matcher finds exactly the longest match the pattern allows at `i`. */
  lemma MatchAtLongest(p: Pattern, s: string, i: nat)
    requires i <= |s|
    ensures MatchAt(p, s, i).Some? ==> Matches(p, s, i, MatchAt(p, s, i).value)
    ensures forall e: nat :: Matches(p, s, i, e) ==> MatchAt(p, s, i).Some? && e <= MatchAt(p, s, i).value
  {
    match p
    case Ipv4 =>
      if MatchAt(p, s, i).Some? {
        GroupsMatchAtSound(s, i, 3);
      }
      forall e: nat | Matches(p, s, i, e) ensures MatchAt(p, s, i).Some? && e <= MatchAt(p, s, i).value {
        GroupsMatchAtComplete(s, i, 3, e);
      }
    case DottedMac =>
    case TrailingToken =>
      forall e: nat | Matches(p, s, i, e) ensures MatchAt(p, s, i).Some? && e <= MatchAt(p, s, i).value {
        RunEndUnique(s, i, NonSpace, e);
      }
    case LossToken =>
      if MatchAt(p, s, i).Some? {
        LossMatchAtSound(s, i);
      }
      forall e: nat | Matches(p, s, i, e) ensures MatchAt(p, s, i).Some? && e <= MatchAt(p, s, i).value {
        LossMatchAtComplete(s, i, e);
      }
    case AverageToken =>
      if MatchAt(p, s, i).Some? {
        AverageMatchAtSound(s, i);
      }
      forall e: nat | Matches(p, s, i, e) ensures MatchAt(p, s, i).Some? && e <= MatchAt(p, s, i).value {
        AverageMatchAtComplete(s, i, e);
      }
  }

  lemma LossMatchAtSound(s: string, i: nat)
    requires i <= |s| && MatchAt(LossToken, s, i).Some?
    ensures Matches(LossToken, s, i, MatchAt(LossToken, s, i).value)
  {
    var e := RunEnd(s, i + 1, Digit);
    var t := s[i..e + 7];
    SubSlice(s, i, e + 7, 1, |t| - 7);
    SubSlice(s, i, e + 7, |t| - 7, |t|);
    assert t[|t| - 7..] == t[|t| - 7..|t|];
  }

  lemma LossMatchAtComplete(s: string, i: nat, e: nat)
    requires i <= |s| && Matches(LossToken, s, i, e)
    ensures MatchAt(LossToken, s, i) == Some(e)
  {
    var t := s[i..e];
    assert |t| == e - i >= 9;
    SubSlice(s, i, e, 1, |t| - 7);
    SubSlice(s, i, e, |t| - 7, |t|);
    assert t[|t| - 7..] == t[|t| - 7..|t|];
    assert s[e - 7] == s[e - 7..e][0];
    RunEndUnique(s, i + 1, Digit, e - 7);
  }

  lemma AverageMatchAtSound(s: string, i: nat)
    requires i <= |s| && MatchAt(AverageToken, s, i).Some?
    ensures Matches(AverageToken, s, i, MatchAt(AverageToken, s, i).value)
  {
    var e := RunEnd(s, i + 10, Digit);
    var t := s[i..e + 2];
    assert |t| == e + 2 - i;
    SubSlice(s, i, e + 2, 0, 10);
    SubSlice(s, i, e + 2, 10, |t| - 2);
    SubSlice(s, i, e + 2, |t| - 2, |t|);
    assert t[..10] == t[0..10];
    assert t[|t| - 2..] == t[|t| - 2..|t|];
  }

  lemma AverageMatchAtComplete(s: string, i: nat, e: nat)
    requires i <= |s| && Matches(AverageToken, s, i, e)
    ensures MatchAt(AverageToken, s, i) == Some(e)
  {
    var t := s[i..e];
    assert |t| == e - i >= 13;
    SubSlice(s, i, e, 0, 10);
    SubSlice(s, i, e, 10, |t| - 2);
    SubSlice(s, i, e, |t| - 2, |t|);
    assert t[..10] == t[0..10];
    assert t[|t| - 2..] == t[|t| - 2..|t|];
    assert s[e - 2] == s[e - 2..e][0];
    RunEndUnique(s, i + 10, Digit, e - 2);
  }

  /** `re.search` started at position `from`: tries each position in turn. */
  function SearchFrom(p: Pattern, s: string, from: nat): (r: Option<Span>)
    ensures r.Some? ==> from <= r.value.start < r.value.end <= |s|
    decreases |s| + 1 - from
  {
    if from > |s| then None
    else
      match MatchAt(p, s, from)
      case Some(e) => Some(Span(from, e))
      case None => SearchFrom(p, s, from + 1)
  }

  /** `re.search(p, s)`. */
  function Search(p: Pattern, s: string): (r: Option<Span>)
    ensures r.Some? ==> r.value.start < r.value.end <= |s|
  {
    SearchFrom(p, s, 0)
  }

  /** The search from `from` finds the first position at or after `from` where `p` matches, and the longest match there. */
  lemma {:induction false} SearchFromSpec(p: Pattern, s: string, from: nat)
    ensures var r := SearchFrom(p, s, from);
      r.Some? ==>
        Matches(p, s, r.value.start, r.value.end) && (forall e: nat :: Matches(p, s, r.value.start, e) ==> e <= r.value.end)
    ensures var r := SearchFrom(p, s, from);
      forall j: nat, e: nat :: from <= j && Matches(p, s, j, e) ==> r.Some? && r.value.start <= j
    decreases |s| + 1 - from
  {
    if from <= |s| {
      MatchAtLongest(p, s, from);
      if MatchAt(p, s, from).None? {
        SearchFromSpec(p, s, from + 1);
      }
    }
  }

  /** `re.search` reports the leftmost match, and the longest one at that start. */
  lemma SearchLeftmostLongest(p: Pattern, s: string)
    ensures Search(p, s).Some? ==> LeftmostLongest(p, s, Search(p, s).value.start, Search(p, s).value.end)
  {
    SearchFromSpec(p, s, 0);
  }

  /** `re.search` reports nothing exactly when the pattern occurs nowhere in `s`. */
  lemma SearchNoneIff(p: Pattern, s: string)
    ensures Search(p, s).None? <==> !HasMatch(p, s)
  {
    SearchFromSpec(p, s, 0);
  }

  /** What `re.search` reports is a match of the pattern. */
  lemma SearchMatches(p: Pattern, s: string)
    ensures Search(p, s).Some? ==> Matches(p, s, Search(p, s).value.start, Search(p, s).value.end)
  {
    SearchFromSpec(p, s, 0);
  }

  /** Leftmost-longest matches are unique. */
  lemma LeftmostLongestUnique(p: Pattern, s: string, i: nat, e: nat)
    requires LeftmostLongest(p, s, i, e)
    ensures Search(p, s) == Some(Span(i, e))
  {
    SearchLeftmostLongest(p, s);
    SearchNoneIff(p, s);
  }
}
