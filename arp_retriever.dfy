/**
 * The ARP-table scanner of `ARPRetriever.get_arp_table`: the text a Cisco
 * `show ip arp` command printed is split into lines, and each line that holds
 * an IPv4-shaped run, a dotted MAC and a trailing token becomes one entry.
 * The SSH session that produces the text is not modelled: the text is a parameter.
 */
module ArpRetriever {
  import opened Wrappers
  import opened Chars
  import opened Lines
  import opened Regex

  /** One row of the ARP table, as the dictionary `{ip, mac, interface}`. */
  datatype ArpEntry = ArpEntry(ip: string, mac: string, interface: string)

  /**
   * The entry one line yields: the three searches are independent and
   * unanchored, and the line counts only when all three succeed.
   */
  function ParseLine(line: string): (r: Option<ArpEntry>)
    ensures r.Some? ==> r.value.ip != [] && |r.value.mac| == 14 && r.value.interface != []
    ensures r.Some? ==> |r.value.interface| <= |line| && line[|line| - |r.value.interface|..] == r.value.interface
  {
    var ipMatch := Search(Ipv4, line);
    var macMatch := Search(DottedMac, line);
    var interfaceMatch := Search(TrailingToken, line);
    if ipMatch.Some? && macMatch.Some? && interfaceMatch.Some? then
      MatchBounds(line);
      Some(ArpEntry(
        line[ipMatch.value.start..ipMatch.value.end],
        line[macMatch.value.start..macMatch.value.end],
        line[interfaceMatch.value.start..interfaceMatch.value.end]))
    else
      None
  }

  /** A dotted MAC match is 14 characters long, and a trailing-token match ends the line. */
  lemma MatchBounds(line: string)
    ensures var m := Search(DottedMac, line); m.Some? ==> m.value.end - m.value.start == 14
    ensures var m := Search(TrailingToken, line); m.Some? ==> m.value.end == |line|
  {
    SearchMatches(DottedMac, line);
    SearchMatches(TrailingToken, line);
  }

  /** The values of the `Some` outcomes, in order: the entries of the accepted lines. */
  function Somes<T>(outcomes: seq<Option<T>>): (values: seq<T>)
    ensures |values| <= |outcomes|
  {
    if outcomes == [] then []
    else (if outcomes[0].Some? then [outcomes[0].value] else []) + Somes(outcomes[1..])
  }

  /** The outcome of every line of `command`, one per line. */
  function LineOutcomes(command: string): (outcomes: seq<Option<ArpEntry>>)
    ensures var lines := SplitLines(command);
      |outcomes| == |lines| && forall j :: 0 <= j < |lines| ==> outcomes[j] == ParseLine(lines[j])
  {
    var lines := SplitLines(command);
    seq(|lines|, j requires 0 <= j < |lines| => ParseLine(lines[j]))
  }

  /** What `get_arp_table` returns for the text `command` printed. */
  function ParseTable(command: string): (entries: seq<ArpEntry>)
    ensures |entries| <= |SplitLines(command)|
    ensures command == [] ==> entries == []
  {
    Somes(LineOutcomes(command))
  }

  /** The loop of `get_arp_table`: one pass over the lines, appending an entry per accepted line. */
  method GetArpTable(command: string) returns (entries: seq<ArpEntry>)
    ensures entries == ParseTable(command)
  {
    var lines := SplitLines(command);
    ghost var outcomes := LineOutcomes(command);
    entries := [];
    for i := 0 to |lines|
      invariant entries == Somes(outcomes[..i])
    {
      var entry := ParseLine(lines[i]);
      assert entry == outcomes[i];
      SomesSnoc(outcomes, i);
      if entry.Some? {
        entries := entries + [entry.value];
      }
    }
    assert outcomes[..|lines|] == outcomes;
  }

  /** One more outcome adds its value, if it has one, at the end. */
  lemma SomesSnoc<T>(outcomes: seq<Option<T>>, i: nat)
    requires i < |outcomes|
    ensures Somes(outcomes[..i + 1])
      == Somes(outcomes[..i]) + (if outcomes[i].Some? then [outcomes[i].value] else [])
  {
    SomesAppend(outcomes[..i], [outcomes[i]]);
    assert outcomes[..i + 1] == outcomes[..i] + [outcomes[i]];
    assert Somes([outcomes[i]]) == (if outcomes[i].Some? then [outcomes[i].value] else []) + Somes([]);
  }

  /** Each outcome contributes on its own: nothing is carried from one line to the next. */
  lemma {:induction false} SomesAppend<T>(a: seq<Option<T>>, b: seq<Option<T>>)
    ensures Somes(a + b) == Somes(a) + Somes(b)
  {
    if a != [] {
      var head := if a[0].Some? then [a[0].value] else [];
      assert (a + b)[0] == a[0];
      assert (a + b)[1..] == a[1..] + b;
      SomesAppend(a[1..], b);
      calc {
        Somes(a + b);
        head + Somes(a[1..] + b);
        head + (Somes(a[1..]) + Somes(b));
        (head + Somes(a[1..])) + Somes(b);
        Somes(a) + Somes(b);
      }
    } else {
      assert a + b == b;
    }
  }

  /** The positions of the `Some` outcomes, in order. */
  function SomeIndices<T>(outcomes: seq<Option<T>>): (idx: seq<nat>)
    ensures |idx| == |Somes(outcomes)|
  {
    if outcomes == [] then []
    else (if outcomes[0].Some? then [0] else []) + Shift(SomeIndices(outcomes[1..]))
  }

  /** Every index moved one place on. */
  function Shift(idx: seq<nat>): (r: seq<nat>)
    ensures |r| == |idx| && forall k :: 0 <= k < |idx| ==> r[k] == idx[k] + 1
  {
    seq(|idx|, k requires 0 <= k < |idx| => idx[k] + 1)
  }

  /** Value `k` of Somes is the outcome at position `SomeIndices[k]`. */
  lemma {:induction false} SomeIndicesSound<T>(outcomes: seq<Option<T>>)
    ensures forall k :: 0 <= k < |SomeIndices(outcomes)| ==>
      SomeIndices(outcomes)[k] < |outcomes| && outcomes[SomeIndices(outcomes)[k]] == Some(Somes(outcomes)[k])
  {
    if outcomes != [] {
      var tail := outcomes[1..];
      SomeIndicesSound(tail);
      var rest := SomeIndices(tail);
      var idx := SomeIndices(outcomes);
      var values := Somes(outcomes);
      var d := if outcomes[0].Some? then 1 else 0;
      assert idx == (if d == 1 then [0] else []) + Shift(rest);
      assert values == (if d == 1 then [outcomes[0].value] else []) + Somes(tail);
      forall k | d <= k < |idx| ensures idx[k] < |outcomes| && outcomes[idx[k]] == Some(values[k]) {
        assert idx[k] == rest[k - d] + 1;
        assert outcomes[idx[k]] == tail[rest[k - d]];
        assert values[k] == Somes(tail)[k - d];
      }
    }
  }

  ghost predicate StrictlyIncreasing(idx: seq<nat>) {
    forall k, k' :: 0 <= k < k' < |idx| ==> idx[k] < idx[k']
  }

  /** The positions strictly increase: Somes keeps the order of the outcomes. */
  lemma {:induction false} SomeIndicesIncreasing<T>(outcomes: seq<Option<T>>)
    ensures StrictlyIncreasing(SomeIndices(outcomes))
  {
    if outcomes != [] {
      SomeIndicesIncreasing(outcomes[1..]);
      ShiftIncreasing(SomeIndices(outcomes[1..]));
    }
  }

  lemma ShiftIncreasing(idx: seq<nat>)
    requires StrictlyIncreasing(idx)
    ensures StrictlyIncreasing(Shift(idx)) && StrictlyIncreasing([0] + Shift(idx))
  {
    var shifted := Shift(idx);
    var withZero := [0] + shifted;
    forall k, k' | 0 <= k < k' < |withZero| ensures withZero[k] < withZero[k'] {
      assert withZero[k'] == idx[k' - 1] + 1;
      if k > 0 {
        assert withZero[k] == idx[k - 1] + 1;
      }
    }
  }

  /** Every `Some` outcome is listed: Somes drops nothing else, duplicates included. */
  lemma {:induction false} SomeIndicesComplete<T>(outcomes: seq<Option<T>>)
    ensures forall j :: 0 <= j < |outcomes| && outcomes[j].Some? ==> j in SomeIndices(outcomes)
  {
    if outcomes != [] {
      var tail := outcomes[1..];
      SomeIndicesComplete(tail);
      var rest := SomeIndices(tail);
      var shifted := Shift(rest);
      forall j | 0 < j < |outcomes| && outcomes[j].Some? ensures j in shifted {
        assert tail[j - 1] == outcomes[j];
        var r :| 0 <= r < |rest| && rest[r] == j - 1;
        assert shifted[r] == j;
      }
    }
  }

  /**
   * The table lists, in line order, the entry of every line that yields one
   * and nothing else: entry `k` comes from line `idx[k]`.
   */
  lemma ParseTableFilter(command: string) returns (idx: seq<nat>)
    ensures var lines, entries := SplitLines(command), ParseTable(command);
      |idx| == |entries|
      && (forall k :: 0 <= k < |idx| ==> idx[k] < |lines| && ParseLine(lines[idx[k]]) == Some(entries[k]))
      && StrictlyIncreasing(idx)
      && (forall j :: 0 <= j < |lines| && ParseLine(lines[j]).Some? ==> j in idx)
  {
    var outcomes := LineOutcomes(command);
    idx := SomeIndices(outcomes);
    SomeIndicesSound(outcomes);
    SomeIndicesIncreasing(outcomes);
    SomeIndicesComplete(outcomes);
  }

  /** A line yields an entry exactly when all three patterns occur in it. */
  lemma ParseLineIff(line: string)
    ensures ParseLine(line).Some? <==> HasMatch(Ipv4, line) && HasMatch(DottedMac, line) && HasMatch(TrailingToken, line)
  {
    SearchNoneIff(Ipv4, line);
    SearchNoneIff(DottedMac, line);
    SearchNoneIff(TrailingToken, line);
  }

  /** Each field of an entry is the text of its pattern's leftmost-longest match in the line. */
  lemma ParseLineFields(line: string)
    requires ParseLine(line).Some?
    ensures var r := ParseLine(line).value;
      (exists i: nat, e: nat :: LeftmostLongest(Ipv4, line, i, e) && r.ip == line[i..e])
      && (exists i: nat, e: nat :: LeftmostLongest(DottedMac, line, i, e) && r.mac == line[i..e])
      && (exists i: nat :: LeftmostLongest(TrailingToken, line, i, |line|) && r.interface == line[i..])
  {
    var ip, mac, itf := Search(Ipv4, line).value, Search(DottedMac, line).value, Search(TrailingToken, line).value;
    SearchLeftmostLongest(Ipv4, line);
    SearchLeftmostLongest(DottedMac, line);
    SearchLeftmostLongest(TrailingToken, line);
    assert LeftmostLongest(Ipv4, line, ip.start, ip.end);
    assert LeftmostLongest(DottedMac, line, mac.start, mac.end);
    assert Matches(TrailingToken, line, itf.start, itf.end);
    assert line[itf.start..itf.end] == line[itf.start..];
    assert LeftmostLongest(TrailingToken, line, itf.start, |line|);
  }

  /** The fields have the shapes their patterns describe. */
  lemma EntryShape(line: string)
    requires ParseLine(line).Some?
    ensures DigitGroups(ParseLine(line).value.ip, 3)
    ensures MacShape(ParseLine(line).value.mac) && |ParseLine(line).value.mac| == 14
    ensures var itf := ParseLine(line).value.interface;
      itf != [] && All(itf, NonSpace) && |itf| <= |line| && line[|line| - |itf|..] == itf
  {
    var ip, mac, itf := Search(Ipv4, line).value, Search(DottedMac, line).value, Search(TrailingToken, line).value;
    SearchMatches(Ipv4, line);
    SearchMatches(DottedMac, line);
    SearchMatches(TrailingToken, line);
    assert Matches(TrailingToken, line, itf.start, itf.end);
  }

  /** A line yields an interface exactly when it ends in a non-whitespace character. */
  lemma TrailingTokenIff(line: string)
    ensures HasMatch(TrailingToken, line) <==> |line| > 0 && !IsSpace(line[|line| - 1])
  {
    if |line| > 0 && !IsSpace(line[|line| - 1]) {
      assert Matches(TrailingToken, line, |line| - 1, |line|);
    }
    if HasMatch(TrailingToken, line) {
      var i: nat, e: nat :| Matches(TrailingToken, line, i, e);
      assert line[i..e][e - i - 1] == line[|line| - 1];
    }
  }

  /** A line ending in whitespace yields no entry, whatever else it holds. */
  lemma TrailingSpaceSkipped(line: string)
    requires |line| > 0 && IsSpace(line[|line| - 1])
    ensures ParseLine(line) == None
  {
    TrailingTokenIff(line);
    ParseLineIff(line);
  }

  lemma {:induction false} DigitGroupsStartWithDigit(t: string, n: nat)
    requires DigitGroups(t, n)
    ensures |t| > 0 && IsDigit(t[0])
  {
    if n > 0 {
      var k: nat :| FirstGroup(t, n, k);
      assert t[..k][0] == t[0];
    }
  }

  predicate DigitFree(s: string) {
    forall j :: 0 <= j < |s| ==> !IsDigit(s[j])
  }

  lemma DigitFreeAppend(a: string, b: string)
    requires DigitFree(a) && DigitFree(b)
    ensures DigitFree(a + b)
  {
    forall j | |a| <= j < |a + b|
      ensures !IsDigit((a + b)[j])
    {
      assert (a + b)[j] == b[j - |a|];
    }
  }

  /** A line without any digit yields no entry: there is no IPv4-shaped run in it. */
  lemma NoDigitSkipped(line: string)
    requires DigitFree(line)
    ensures ParseLine(line) == None
  {
    ParseLineIff(line);
    if HasMatch(Ipv4, line) {
      var i: nat, e: nat :| Matches(Ipv4, line, i, e);
      DigitGroupsStartWithDigit(line[i..e], 3);
    }
  }

  lemma {:induction false} DigitGroupsChars(t: string, n: nat)
    requires DigitGroups(t, n)
    ensures forall j :: 0 <= j < |t| ==> IsDigit(t[j]) || t[j] == '.'
    decreases n
  {
    if n > 0 {
      var k: nat :| FirstGroup(t, n, k);
      DigitGroupsChars(t[k + 1..], n - 1);
      forall j | 0 <= j < |t|
        ensures IsDigit(t[j]) || t[j] == '.'
      {
        if j < k {
          assert t[j] == t[..k][j];
        } else if j > k {
          assert t[j] == t[k + 1..][j - k - 1];
        }
      }
    }
  }

  /** A row laid out as `show ip arp` prints it: protocol, address, age, MAC, type, interface. */
  function Row(ip: string, age: string, mac: string, itf: string): string {
    "Internet  " + ip + "   " + age + "   " + mac + "  ARPA  " + itf
  }

  /** Where each column of a row starts and ends. */
  lemma RowLayout(ip: string, age: string, mac: string, itf: string)
    ensures var s, p1 := Row(ip, age, mac, itf), 10 + |ip|;
      var p2 := p1 + 3 + |age|;
      var m := p2 + 3;
      var q := m + |mac| + 8;
      |s| == q + |itf|
      && s[..10] == "Internet  " && s[10..p1] == ip && s[p1..p1 + 3] == "   "
      && s[p1 + 3..p2] == age && s[p2..m] == "   " && s[m..m + |mac|] == mac
      && s[m + |mac|..q] == "  ARPA  " && s[q..] == itf
  {
    var s, p1 := Row(ip, age, mac, itf), 10 + |ip|;
    var p2 := p1 + 3 + |age|;
    var m := p2 + 3;
    var q := m + |mac| + 8;
    SliceOf(s, 0, "Internet  ");
    SliceOf(s, 10, ip);
    SliceOf(s, p1, "   ");
    SliceOf(s, p1 + 3, age);
    SliceOf(s, p2, "   ");
    SliceOf(s, m, mac);
    SliceOf(s, m + |mac|, "  ARPA  ");
    SliceOf(s, q, itf);
  }

  /** A piece of `s` equals `w` when it agrees with `w` character by character. */
  lemma SliceOf(s: string, i: nat, w: string)
    requires i + |w| <= |s| && forall k :: 0 <= k < |w| ==> s[i + k] == w[k]
    ensures s[i..i + |w|] == w
  {
  }

  /** No character of the protocol column is a digit. */
  lemma ProtocolNoDigit(s: string, j: nat)
    requires 10 <= |s| && s[..10] == "Internet  " && j < 10
    ensures !IsDigit(s[j])
  {
    assert s[j] == "Internet  "[j];
  }

  /** The address column is the IPv4 match: nothing before it holds a digit, and a blank ends it. */
  lemma AddressAt(s: string, p: nat)
    requires 10 <= p < |s| && s[..10] == "Internet  " && DigitGroups(s[10..p], 3) && s[p] == ' '
    ensures Search(Ipv4, s) == Some(Span(10, p))
  {
    forall j: nat, f: nat | Matches(Ipv4, s, j, f)
      ensures 10 <= j
    {
      DigitGroupsStartWithDigit(s[j..f], 3);
      assert IsDigit(s[j..f][0]);
      if j < 10 {
        ProtocolNoDigit(s, j);
      }
    }
    forall f: nat | Matches(Ipv4, s, 10, f)
      ensures f <= p
    {
      DigitGroupsChars(s[10..f], 3);
    }
    LeftmostLongestUnique(Ipv4, s, 10, p);
  }

  lemma CharInSlice(x: string, a: nat, b: nat, k: nat)
    requires a <= k < b <= |x|
    ensures x[k] in x[a..b]
  {
    assert x[a..b][k - a] == x[k];
  }

  /**
   * The MAC column is the MAC match, provided the address holds none and the
   * age holds no dot: any earlier 14-character window meets a blank or lies
   * inside one of those two columns.
   */
  lemma MacAt(s: string, p1: nat, p2: nat, m: nat)
    requires 10 <= p1 && p1 + 3 <= p2 && m == p2 + 3 && m + 14 <= |s|
    requires s[9] == ' ' && s[p1..p1 + 3] == "   " && s[p2..m] == "   "
    requires !HasMatch(DottedMac, s[10..p1]) && '.' !in s[p1 + 3..p2] && MacShape(s[m..m + 14])
    ensures Search(DottedMac, s) == Some(Span(m, m + 14))
  {
    forall k | p1 <= k < p1 + 3
      ensures s[k] == ' '
    {
      assert s[k] == s[p1..p1 + 3][k - p1];
    }
    forall k | p2 <= k < m
      ensures s[k] == ' '
    {
      assert s[k] == s[p2..m][k - p2];
    }
    forall j: nat, f: nat | Matches(DottedMac, s, j, f)
      ensures m <= j
    {
      if j <= 9 {
        BlankBreaksMac(s, j, 9);
      } else if j < p1 {
        if f <= p1 {
          SubSlice(s, 10, p1, j - 10, f - 10);
          MacInside(s[10..p1], j - 10);
        } else {
          BlankBreaksMac(s, j, p1);
        }
      } else if j < p1 + 3 {
        BlankBreaksMac(s, j, j);
      } else if j < p2 {
        if f <= p2 {
          CharInSlice(s, p1 + 3, p2, j + 4);
        } else {
          BlankBreaksMac(s, j, p2);
        }
      } else if j < m {
        BlankBreaksMac(s, j, j);
      }
    }
    LeftmostLongestUnique(DottedMac, s, m, m + 14);
  }

  lemma MacInside(s: string, j: nat)
    requires j + 14 <= |s| && MacShape(s[j..j + 14])
    ensures HasMatch(DottedMac, s)
  {
    assert Matches(DottedMac, s, j, j + 14);
  }

  /** A 14-character window with a blank in it is no dotted MAC. */
  lemma BlankBreaksMac(s: string, j: nat, b: nat)
    requires j <= b < j + 14 <= |s| && s[b] == ' '
    ensures !MacShape(s[j..j + 14])
  {
    assert s[j..j + 14][b - j] == s[b];
  }

  /** The interface column is the trailing token: the blank before it stops any earlier start. */
  lemma InterfaceAt(s: string, q: nat)
    requires 0 < q < |s| && s[q - 1] == ' ' && All(s[q..], NonSpace)
    ensures Search(TrailingToken, s) == Some(Span(q, |s|))
  {
    forall j: nat, f: nat | Matches(TrailingToken, s, j, f)
      ensures q <= j
    {
    }
    LeftmostLongestUnique(TrailingToken, s, q, |s|);
  }

  /**
   * A line laid out in the columns of a row, whose address has IPv4 shape
   * and holds no MAC, whose age holds no dot, and with a dotted MAC and a
   * non-blank interface, yields those three columns.
   */
  lemma WellFormedLine(s: string, p1: nat, p2: nat)
    requires 10 <= p1 && p1 + 3 <= p2 && p2 + 25 < |s|
    requires s[..10] == "Internet  " && s[p1..p1 + 3] == "   " && s[p2..p2 + 3] == "   "
    requires s[p2 + 17..p2 + 25] == "  ARPA  "
    requires DigitGroups(s[10..p1], 3) && !HasMatch(DottedMac, s[10..p1]) && '.' !in s[p1 + 3..p2]
    requires MacShape(s[p2 + 3..p2 + 17]) && All(s[p2 + 25..], NonSpace)
    ensures ParseLine(s) == Some(ArpEntry(s[10..p1], s[p2 + 3..p2 + 17], s[p2 + 25..]))
  {
    assert s[9] == s[..10][9];
    assert s[p1] == s[p1..p1 + 3][0];
    assert s[p2 + 24] == s[p2 + 17..p2 + 25][7];
    AddressAt(s, p1);
    MacAt(s, p1, p2, p2 + 3);
    InterfaceAt(s, p2 + 25);
    assert Search(Ipv4, s) == Some(Span(10, p1));
    assert Search(DottedMac, s) == Some(Span(p2 + 3, p2 + 17));
    assert Search(TrailingToken, s) == Some(Span(p2 + 25, |s|));
    assert s[p2 + 25..|s|] == s[p2 + 25..];
  }

  /** A row whose columns have the expected shapes yields exactly its address, MAC and interface. */
  lemma WellFormedRow(ip: string, age: string, mac: string, itf: string)
    requires DigitGroups(ip, 3) && !HasMatch(DottedMac, ip)
    requires '.' !in age && MacShape(mac)
    requires itf != [] && All(itf, NonSpace)
    ensures ParseLine(Row(ip, age, mac, itf)) == Some(ArpEntry(ip, mac, itf))
  {
    var s, p1 := Row(ip, age, mac, itf), 10 + |ip|;
    var p2 := p1 + 3 + |age|;
    RowLayout(ip, age, mac, itf);
    assert s[10..p1] == ip && s[p1 + 3..p2] == age;
    assert s[p2 + 3..p2 + 17] == mac && s[p2 + 25..] == itf;
    WellFormedLine(s, p1, p2);
  }

  /** Joining a digit run to `n` dotted groups with a dot gives `n + 1` groups. */
  lemma DotJoin(a: string, b: string, n: nat)
    requires |a| > 0 && All(a, Digit) && DigitGroups(b, n)
    ensures DigitGroups(a + "." + b, n + 1)
  {
    var t := a + "." + b;
    assert t[..|a|] == a;
    assert t[|a| + 1..] == b;
    assert FirstGroup(t, n + 1, |a|);
  }

  /** A text shorter than a dotted MAC holds none. */
  lemma ShortHasNoMac(s: string)
    requires |s| < 14
    ensures !HasMatch(DottedMac, s)
  {
  }

  lemma DottedPair(c: string, d: string)
    requires |c| > 0 && All(c, Digit) && |d| > 0 && All(d, Digit)
    ensures DigitGroups(c + "." + d, 1)
  {
    DotJoin(c, d, 0);
  }

  lemma DottedTriple(b: string, c: string, d: string)
    requires |b| > 0 && All(b, Digit) && |c| > 0 && All(c, Digit) && |d| > 0 && All(d, Digit)
    ensures DigitGroups(b + "." + (c + "." + d), 2)
  {
    DottedPair(c, d);
    DotJoin(b, c + "." + d, 1);
  }

  /** Four digit runs joined by dots have the shape of an IPv4 address. */
  lemma DottedQuad(a: string, b: string, c: string, d: string)
    requires |a| > 0 && All(a, Digit) && |b| > 0 && All(b, Digit)
    requires |c| > 0 && All(c, Digit) && |d| > 0 && All(d, Digit)
    ensures DigitGroups(a + "." + (b + "." + (c + "." + d)), 3)
  {
    DottedTriple(b, c, d);
    DotJoin(a, b + "." + (c + "." + d), 2);
  }

  lemma SampleAddressText()
    ensures "192" + "." + ("168" + "." + ("1" + "." + "1")) == "192.168.1.1"
  {
  }

  lemma SampleAddress()
    ensures DigitGroups("192.168.1.1", 3)
  {
    assert All("192", Digit) && All("168", Digit) && All("1", Digit);
    DottedQuad("192", "168", "1", "1");
    SampleAddressText();
  }

  lemma SampleColumns()
    ensures !HasMatch(DottedMac, "192.168.1.1")
    ensures '.' !in "10" && MacShape("aabb.cc00.0110") && All("Ethernet0/1", NonSpace)
  {
    ShortHasNoMac("192.168.1.1");
  }

  /** The sample row quoted in the comment in `get_arp_table`. */
  const SampleLine: string := "Internet  192.168.1.1   10   aabb.cc00.0110  ARPA  Ethernet0/1"

  lemma SampleLinePieces()
    ensures "Internet  " + "192.168.1.1" + "   " == "Internet  192.168.1.1   "
    ensures "10" + "   " + "aabb.cc00.0110" == "10   aabb.cc00.0110"
    ensures "  ARPA  " + "Ethernet0/1" == "  ARPA  Ethernet0/1"
  {
  }

  lemma SampleLineFront()
    ensures "Internet  192.168.1.1   " + "10   aabb.cc00.0110" == "Internet  192.168.1.1   10   aabb.cc00.0110"
  {
  }

  lemma SampleLineWhole()
    ensures "Internet  192.168.1.1   10   aabb.cc00.0110" + "  ARPA  Ethernet0/1" == SampleLine
  {
  }

  /** The sample row is the row of the sample's columns. */
  lemma SampleLineText()
    ensures Row("192.168.1.1", "10", "aabb.cc00.0110", "Ethernet0/1") == SampleLine
  {
    SampleLinePieces();
    SampleLineFront();
    SampleLineWhole();
    var front, middle, back := "Internet  " + "192.168.1.1" + "   ", "10" + "   " + "aabb.cc00.0110", "  ARPA  " + "Ethernet0/1";
    assert Row("192.168.1.1", "10", "aabb.cc00.0110", "Ethernet0/1") == front + middle + back;
  }

  /** The sample row in the comment in `get_arp_table` yields its address, MAC and interface. */
  lemma SampleRow()
    ensures ParseLine(SampleLine) == Some(ArpEntry("192.168.1.1", "aabb.cc00.0110", "Ethernet0/1"))
  {
    SampleAddress();
    SampleColumns();
    WellFormedRow("192.168.1.1", "10", "aabb.cc00.0110", "Ethernet0/1");
    SampleLineText();
  }

  /** The column headings printed above the rows of the table. */
  const ArpHeader: string :=
    "Protocol  " + "Address  " + "Age(min)  " + "Hardware " + "Addr  " + "Type  " + "Interface"

  /** The heading line yields no entry: it holds no digit. */
  lemma HeaderSkipped()
    ensures ParseLine(ArpHeader) == None
  {
    assert DigitFree("Protocol  ") && DigitFree("Address  ") && DigitFree("Age(min)  ");
    assert DigitFree("Hardware ") && DigitFree("Addr  ") && DigitFree("Type  ") && DigitFree("Interface");
    DigitFreeAppend("Protocol  ", "Address  ");
    DigitFreeAppend("Protocol  " + "Address  ", "Age(min)  ");
    DigitFreeAppend("Protocol  " + "Address  " + "Age(min)  ", "Hardware ");
    DigitFreeAppend("Protocol  " + "Address  " + "Age(min)  " + "Hardware ", "Addr  ");
    DigitFreeAppend("Protocol  " + "Address  " + "Age(min)  " + "Hardware " + "Addr  ", "Type  ");
    DigitFreeAppend("Protocol  " + "Address  " + "Age(min)  " + "Hardware " + "Addr  " + "Type  ", "Interface");
    NoDigitSkipped(ArpHeader);
  }
}
