/** The regular-expression layer of the core: the `<IP>` placeholder, the
    IPv4-shaped pattern it stands for, and an abstract engine for the
    user-supplied patterns. */
module Regex {
  import opened Wrappers
  import opened Strings

  /** What the core asks of the `regex` crate for a user pattern: whether
      it compiles, and the text of the leftmost match in a line. The
      engine itself is not modelled. */
  datatype Engine = Engine(compiles: string -> bool, find: (string, string) -> Option<string>)

  const PLACEHOLDER: string := "<IP>"

  /** `IP_REGEX`: four groups of one to three digits separated by dots,
      between word boundaries. */
  const IP_REGEX: string := @"\b(?:\d{1,3}\.){3}\d{1,3}\b"

  /** A user pattern with every `<IP>` replaced by `IP_REGEX`. */
  function FinalPattern(raw: string): string
  {
    ReplaceAll(raw, PLACEHOLDER, IP_REGEX)
  }

  /** No placeholder survives the substitution. */
  lemma FinalPatternHasNoPlaceholder(raw: string)
    ensures !Contains(FinalPattern(raw), PLACEHOLDER)
  {
    assert IP_REGEX[0] == '\\';
    assert ReplacementIsClean(PLACEHOLDER, IP_REGEX);
    ReplaceAllRemovesAll(raw, PLACEHOLDER, IP_REGEX);
  }

  // ---------------------------------------------------------------------------
  // IP_REGEX, written out
  // ---------------------------------------------------------------------------

  predicate IsWordChar(c: char)
  {
    IsDigit(c) || ('a' <= c <= 'z') || ('A' <= c <= 'Z') || c == '_'
  }

  /** The length of the run of digits starting at `j`. */
  function DigitRun(s: string, j: nat): (n: nat)
    requires j <= |s|
    ensures j + n <= |s|
    ensures forall k :: j <= k < j + n ==> IsDigit(s[k])
    ensures j + n == |s| || !IsDigit(s[j + n])
    decreases |s| - j
  {
    if j < |s| && IsDigit(s[j]) then 1 + DigitRun(s, j + 1) else 0
  }

  /** The end of a group of one to three digits at `j` that is followed by
      a dot, or None. A longer run cannot match: every shorter choice is
      followed by a digit, not a dot. */
  function DottedGroupEnd(s: string, j: nat): (r: Option<nat>)
    requires j <= |s|
    ensures r.Some? ==> j + 2 <= r.value <= j + 4 && r.value <= |s| && s[r.value - 1] == '.'
  {
    var n := DigitRun(s, j);
    if 1 <= n <= 3 && j + n < |s| && s[j + n] == '.' then Some(j + n + 1) else None
  }

  /** The end of the last group of one to three digits at `j`, which must
      be followed by a non-word character or by the end of the text. */
  function FinalGroupEnd(s: string, j: nat): (r: Option<nat>)
    requires j <= |s|
    ensures r.Some? ==> j + 1 <= r.value <= j + 3 && r.value <= |s|
  {
    var n := DigitRun(s, j);
    if 1 <= n <= 3 && (j + n == |s| || !IsWordChar(s[j + n])) then Some(j + n) else None
  }

  /** The end of a match of `IP_REGEX` that starts at `i`, or None. The
      leading `\b` needs a non-word character (or nothing) before `i`, the
      trailing one a non-word character (or nothing) after the last digit. */
  function MatchEnd(s: string, i: nat): (r: Option<nat>)
    requires i <= |s|
    ensures r.Some? ==> i < r.value <= |s|
  {
    if i > 0 && IsWordChar(s[i - 1]) then None
    else match DottedGroupEnd(s, i)
      case None => None
      case Some(e1) => match DottedGroupEnd(s, e1)
        case None => None
        case Some(e2) => match DottedGroupEnd(s, e2)
          case None => None
          case Some(e3) => FinalGroupEnd(s, e3)
  }

  /** A text shaped like a dotted quad: four dot-separated groups of one to
      three digits. Values above 255 and leading zeros are allowed. */
  predicate IsIpv4Shaped(t: string)
  {
    var parts := Split(t, '.');
    |parts| == 4 && forall k :: 0 <= k < 4 ==> 1 <= |parts[k]| <= 3 && AllDigits(parts[k])
  }

  predicate IsDigitGroup(p: string) { 1 <= |p| <= 3 && AllDigits(p) }

  lemma QuadShaped(p0: string, p1: string, p2: string, p3: string)
    requires IsDigitGroup(p0) && IsDigitGroup(p1) && IsDigitGroup(p2) && IsDigitGroup(p3)
    ensures IsIpv4Shaped((p0 + ['.']) + ((p1 + ['.']) + ((p2 + ['.']) + p3)))
  {
    Join4(p0, p1, p2, p3, '.');
    SplitJoin([p0, p1, p2, p3], '.');
  }

  lemma DottedGroupIsGroup(s: string, j: nat)
    requires j <= |s| && DottedGroupEnd(s, j).Some?
    ensures IsDigitGroup(s[j..DottedGroupEnd(s, j).value - 1])
  {
    var n := DigitRun(s, j);
    var g := s[j..j + n];
    assert forall k :: 0 <= k < n ==> g[k] == s[j + k];
  }

  lemma FinalGroupIsGroup(s: string, j: nat)
    requires j <= |s| && FinalGroupEnd(s, j).Some?
    ensures IsDigitGroup(s[j..FinalGroupEnd(s, j).value])
  {
    var n := DigitRun(s, j);
    var g := s[j..j + n];
    assert forall k :: 0 <= k < n ==> g[k] == s[j + k];
  }

  lemma SliceAround(s: string, lo: nat, mid: nat, hi: nat)
    requires lo <= mid < hi <= |s|
    ensures s[lo..hi] == s[lo..mid] + [s[mid]] + s[mid + 1..hi]
  {
  }

  lemma SliceQuad(s: string, i: nat, e1: nat, e2: nat, e3: nat, e4: nat)
    requires i < e1 - 1 && e1 < e2 - 1 && e2 < e3 - 1 && e3 <= e4 <= |s|
    requires s[e1 - 1] == '.' && s[e2 - 1] == '.' && s[e3 - 1] == '.'
    ensures s[i..e4] == (s[i..e1 - 1] + ['.']) + ((s[e1..e2 - 1] + ['.']) + ((s[e2..e3 - 1] + ['.']) + s[e3..e4]))
  {
    SliceAround(s, e2, e3 - 1, e4);
    SliceAround(s, e1, e2 - 1, e4);
    SliceAround(s, i, e1 - 1, e4);
  }

  lemma GroupsAreShaped(s: string, i: nat, e1: nat, e2: nat, e3: nat, e4: nat)
    requires i < e1 <= e2 <= e3 <= e4 <= |s|
    requires DottedGroupEnd(s, i) == Some(e1) && DottedGroupEnd(s, e1) == Some(e2)
    requires DottedGroupEnd(s, e2) == Some(e3) && FinalGroupEnd(s, e3) == Some(e4)
    ensures IsIpv4Shaped(s[i..e4])
  {
    DottedGroupIsGroup(s, i);
    DottedGroupIsGroup(s, e1);
    DottedGroupIsGroup(s, e2);
    FinalGroupIsGroup(s, e3);
    SliceQuad(s, i, e1, e2, e3, e4);
    QuadShaped(s[i..e1 - 1], s[e1..e2 - 1], s[e2..e3 - 1], s[e3..e4]);
  }

  /** Whatever MatchEnd accepts is a dotted quad. */
  lemma MatchIsShaped(s: string, i: nat)
    requires i <= |s| && MatchEnd(s, i).Some?
    ensures IsIpv4Shaped(s[i..MatchEnd(s, i).value])
  {
    var e1 := DottedGroupEnd(s, i).value;
    var e2 := DottedGroupEnd(s, e1).value;
    var e3 := DottedGroupEnd(s, e2).value;
    var e4 := FinalGroupEnd(s, e3).value;
    assert MatchEnd(s, i).value == e4;
    GroupsAreShaped(s, i, e1, e2, e3, e4);
  }

  /** The leftmost start, at or after `i`, of a match. */
  function FirstMatchStart(s: string, i: nat): (r: Option<nat>)
    requires i <= |s|
    ensures r.Some? ==> i <= r.value <= |s| && MatchEnd(s, r.value).Some?
    decreases |s| - i
  {
    if MatchEnd(s, i).Some? then Some(i)
    else if i == |s| then None
    else FirstMatchStart(s, i + 1)
  }

  /** The start found is the leftmost one: no match starts earlier, and
      when none is found no position starts one. */
  lemma {:induction false} FirstMatchIsLeftmost(s: string, i: nat, j: nat)
    requires i <= j <= |s|
    ensures FirstMatchStart(s, i).Some? && j < FirstMatchStart(s, i).value ==> MatchEnd(s, j).None?
    ensures FirstMatchStart(s, i).None? ==> MatchEnd(s, j).None?
    decreases j - i
  {
    if i < j && MatchEnd(s, i).None? {
      FirstMatchIsLeftmost(s, i + 1, j);
    }
  }

  /** `Regex::new(IP_REGEX).find(text)`: the leftmost IPv4-shaped text. */
  function FirstIpv4Shaped(s: string): (r: Option<string>)
    ensures r.Some? ==> IsIpv4Shaped(r.value) && Contains(s, r.value)
    ensures r.None? <==> FirstMatchStart(s, 0).None?
  {
    match FirstMatchStart(s, 0)
    case None => None
    case Some(j) =>
      var e := MatchEnd(s, j).value;
      MatchIsShaped(s, j);
      ContainsAt(s, s[j..e], j);
      Some(s[j..e])
  }

  lemma {:induction false} DigitRunExact(s: string, j: nat, n: nat)
    requires j + n <= |s|
    requires forall k :: j <= k < j + n ==> IsDigit(s[k])
    requires j + n == |s| || !IsDigit(s[j + n])
    ensures DigitRun(s, j) == n
    decreases n
  {
    if n > 0 {
      DigitRunExact(s, j + 1, n - 1);
    }
  }

  lemma DottedGroupAt(s: string, j: nat, n: nat)
    requires 1 <= n <= 3 && j + n < |s| && AllDigits(s[j..j + n]) && s[j + n] == '.'
    ensures DottedGroupEnd(s, j) == Some(j + n + 1)
  {
    var g := s[j..j + n];
    assert forall k :: 0 <= k < n ==> s[j + k] == g[k];
    DigitRunExact(s, j, n);
  }

  lemma FinalGroupAt(s: string, j: nat)
    requires 1 <= |s| - j <= 3 && AllDigits(s[j..])
    ensures FinalGroupEnd(s, j) == Some(|s|)
  {
    var g := s[j..];
    assert forall k :: 0 <= k < |g| ==> s[j + k] == g[k];
    DigitRunExact(s, j, |s| - j);
  }

  lemma QuadSlices(p0: string, p1: string, p2: string, p3: string)
    ensures var t := (p0 + ['.']) + ((p1 + ['.']) + ((p2 + ['.']) + p3));
            var e1, e2, e3 := |p0| + 1, |p0| + |p1| + 2, |p0| + |p1| + |p2| + 3;
            && t[..e1 - 1] == p0 && t[e1 - 1] == '.'
            && t[e1..e2 - 1] == p1 && t[e2 - 1] == '.'
            && t[e2..e3 - 1] == p2 && t[e3 - 1] == '.'
            && t[e3..] == p3
  {
  }

  lemma GroupsMatchWhole(t: string, e1: nat, e2: nat, e3: nat)
    requires 0 < e1 - 1 && e1 < e2 - 1 && e2 < e3 - 1 && e3 < |t|
    requires IsDigitGroup(t[..e1 - 1]) && t[e1 - 1] == '.'
    requires IsDigitGroup(t[e1..e2 - 1]) && t[e2 - 1] == '.'
    requires IsDigitGroup(t[e2..e3 - 1]) && t[e3 - 1] == '.'
    requires IsDigitGroup(t[e3..])
    ensures MatchEnd(t, 0) == Some(|t|)
  {
    assert t[0..e1 - 1] == t[..e1 - 1];
    DottedGroupAt(t, 0, e1 - 1);
    DottedGroupAt(t, e1, e2 - 1 - e1);
    DottedGroupAt(t, e2, e3 - 1 - e2);
    FinalGroupAt(t, e3);
  }

  /** A bare dotted quad is found whole. */
  lemma ShapedTextIsFound(t: string)
    requires IsIpv4Shaped(t)
    ensures FirstIpv4Shaped(t) == Some(t)
  {
    var parts := Split(t, '.');
    JoinSplit(t, '.');
    var p0, p1, p2, p3 := parts[0], parts[1], parts[2], parts[3];
    assert parts == [p0, p1, p2, p3];
    Join4(p0, p1, p2, p3, '.');
    QuadSlices(p0, p1, p2, p3);
    GroupsMatchWhole(t, |p0| + 1, |p0| + |p1| + 2, |p0| + |p1| + |p2| + 3);
    assert t[0..|t|] == t;
  }
}
