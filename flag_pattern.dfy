/** The flag pattern `/--?\w+\s*=?/` of lib/init.js:37 and :44, matched by
    hand: one or two dashes (two when possible), a maximal run of word
    characters, a maximal run of white space and an optional `=`. */
module FlagPattern {
  import opened Wrappers
  import opened JsString

  /** The class `\w`: ASCII letters, digits and underscore (`i` does not widen it without `u`). */
  predicate IsWordChar(c: char) {
    ('a' <= c <= 'z') || ('A' <= c <= 'Z') || ('0' <= c <= '9') || c == '_'
  }

  /** Length of the longest prefix of v made of word characters. */
  function WordRun(v: string): (n: nat)
    ensures n <= |v|
    ensures forall k {:trigger IsWordChar(v[k])} :: 0 <= k < n ==> IsWordChar(v[k])
    ensures n == |v| || !IsWordChar(v[n])
  {
    if |v| > 0 && IsWordChar(v[0]) then 1 + WordRun(v[1..]) else 0
  }

  /** Length of the longest prefix of v made of white space. */
  function SpaceRun(v: string): (n: nat)
    ensures n <= |v|
    ensures forall k {:trigger IsSpace(v[k])} :: 0 <= k < n ==> IsSpace(v[k])
    ensures n == |v| || !IsSpace(v[n])
  {
    if |v| > 0 && IsSpace(v[0]) then 1 + SpaceRun(v[1..]) else 0
  }

  /** The pattern matches at the start of v: a dash and a word character,
      or two dashes and a word character. */
  predicate StartsFlag(v: string) {
    |v| >= 2 && v[0] == '-' && (IsWordChar(v[1]) || (|v| >= 3 && v[1] == '-' && IsWordChar(v[2])))
  }

  /** How many dashes `--?` takes: greedy, so two when the second is followed by a word character. */
  function DashCount(v: string): (d: nat)
    requires StartsFlag(v)
    ensures d == 1 || d == 2
    ensures d < |v| && IsWordChar(v[d])
    ensures forall k :: 0 <= k < d ==> v[k] == '-'
  {
    if v[1] == '-' then 2 else 1
  }

  /** Length of the flag match at the start of v. */
  function FlagLen(v: string): (n: nat)
    requires StartsFlag(v)
    ensures DashCount(v) < n <= |v|
  {
    var d := DashCount(v);
    var w := WordRun(v[d..]);
    var e := d + w + SpaceRun(v[d + w..]);
    if e < |v| && v[e] == '=' then e + 1 else e
  }

  /** The dashes and word characters of the flag match at the start of v. */
  function FlagName(v: string): (f: string)
    requires StartsFlag(v)
  {
    v[..DashCount(v) + WordRun(v[DashCount(v)..])]
  }

  /** A flag as it reaches the argument vector: one or two dashes followed by word characters only. */
  predicate IsFlagName(f: string) {
    && |f| >= 2 && f[0] == '-'
    && var d := if f[1] == '-' then 2 else 1;
      d < |f| && forall k {:trigger IsWordChar(f[k])} :: d <= k < |f| ==> IsWordChar(f[k])
  }

  /** A match position and length within a string. */
  datatype Span = Span(start: nat, len: nat) {
    function End(): nat { start + len }
  }

  /** The pattern matches in s at position q. */
  predicate FlagAt(s: string, q: int) {
    0 <= q <= |s| && StartsFlag(s[q..])
  }

  /** sp is a match of the pattern in s. */
  predicate IsMatch(s: string, sp: Span) {
    && sp.End() <= |s| && FlagAt(s, sp.start) && sp.len == FlagLen(s[sp.start..])
  }

  /** The position a search starting at `from` finds: the leftmost position
      at or after `from` at which the pattern matches. */
  function FirstFrom(s: string, from: nat): (r: Option<nat>)
    requires from <= |s|
    ensures r.Some? ==> from <= r.value <= |s| && FlagAt(s, r.value)
    ensures r.Some? ==> forall q :: from <= q < r.value ==> !FlagAt(s, q)
    ensures r.None? ==> forall q :: from <= q <= |s| ==> !FlagAt(s, q)
    decreases |s| - from
  {
    if FlagAt(s, from) then Some(from)
    else if from == |s| then None
    else FirstFrom(s, from + 1)
  }

  /** The match found at position p. */
  function MatchAt(s: string, p: nat): (sp: Span)
    requires FlagAt(s, p)
    ensures IsMatch(s, sp) && sp.start == p
  {
    Span(p, FlagLen(s[p..]))
  }

  /** The text of a match. */
  function Text(s: string, sp: Span): string
    requires sp.End() <= |s|
  {
    s[sp.start..sp.End()]
  }

  /** `s.match(/--?\w+\s*=?/i)`: the text of the first match, or null. */
  function MatchFirst(s: string): (r: Option<string>)
    ensures r.None? <==> forall q :: 0 <= q <= |s| ==> !FlagAt(s, q)
    ensures r.Some? ==> exists p :: && 0 <= p <= |s| && FlagAt(s, p)
                                    && (forall q :: 0 <= q < p ==> !FlagAt(s, q))
                                    && r.value == Text(s, MatchAt(s, p))
    ensures r.None? <==> FirstFrom(s, 0).None?
    ensures r.Some? ==> r.value == Text(s, MatchAt(s, FirstFrom(s, 0).value))
  {
    match FirstFrom(s, 0)
    case None => None
    case Some(p) => Some(Text(s, MatchAt(s, p)))
  }
}

/** Facts about where the flag pattern matches. */
module FlagPatternFacts {
  import opened Wrappers
  import opened JsString
  import opened FlagPattern

  /** Whether the pattern matches at a position depends only on the first three characters,
      so a flag start stays one when more text follows. */
  lemma StartsFlagExtends(t: string, v: string)
    requires StartsFlag(t) && t <= v
    ensures StartsFlag(v)
  {
    assert v[0] == t[0] && v[1] == t[1];
    if |t| >= 3 { assert v[2] == t[2]; }
  }

  /** The text of a match is itself a flag start. */
  lemma MatchTextStartsFlag(v: string)
    requires StartsFlag(v)
    ensures StartsFlag(v[..FlagLen(v)])
  {
    var d := DashCount(v);
    assert d < FlagLen(v);
    if d == 2 { assert v[..FlagLen(v)][2] == v[2]; }
  }

  /** `indexOf` of the text of the leftmost match finds that match: any
      earlier occurrence of the text would be an earlier match. */
  lemma IndexOfFirstMatch(u: string, p: nat)
    requires FirstFrom(u, 0) == Some(p)
    ensures IndexOf(u, Text(u, MatchAt(u, p))) == p
  {
    var sp := MatchAt(u, p);
    var t := Text(u, sp);
    MatchTextStartsFlag(u[p..]);
    SliceOfSuffix(u, p, sp.len);
    forall j | 0 <= j < p ensures !OccursAt(u, t, j) {
      NoEarlierToken(u, p, t, j);
    }
    IndexOfIs(u, t, p);
  }

  /** A flag token cannot occur before the leftmost match. */
  lemma NoEarlierToken(u: string, p: nat, t: string, j: nat)
    requires FirstFrom(u, 0) == Some(p) && StartsFlag(t) && j < p
    ensures !OccursAt(u, t, j)
  {
    if OccursAt(u, t, j) {
      OccursAsPrefix(u, t, j);
      StartsFlagExtends(t, u[j..]);
      FirstFromMin(u, 0, j);
    }
  }

  /** The search finds the leftmost match: it stops at or before any
      position at or after `from` where the pattern matches. */
  lemma {:induction false} FirstFromMin(s: string, from: nat, q: nat)
    requires from <= q <= |s| && FlagAt(s, q)
    ensures FirstFrom(s, from).Some? && FirstFrom(s, from).value <= q
    decreases q - from
  {
    if !FlagAt(s, from) {
      FirstFromMin(s, from + 1, q);
    }
  }

  /** A search may skip positions where the pattern cannot match. */
  lemma {:induction false} FirstFromSkip(s: string, i: nat, k: nat)
    requires i <= k <= |s|
    requires forall q :: i <= q < k ==> !FlagAt(s, q)
    ensures FirstFrom(s, i) == FirstFrom(s, k)
    decreases k - i
  {
    if i < k {
      FirstFromSkip(s, i + 1, k);
    }
  }

  /** The search looks only to the right: two strings with the same text
      from i and from j give the same match, shifted by j - i. */
  lemma {:induction false} FirstFromShift(u: string, i: nat, v: string, j: nat)
    requires i <= |u| && j <= |v| && u[i..] == v[j..]
    ensures FirstFrom(u, i).None? <==> FirstFrom(v, j).None?
    ensures FirstFrom(u, i).Some? ==> FirstFrom(u, i).value - i == FirstFrom(v, j).value - j
    decreases |u| - i
  {
    if !FlagAt(u, i) && i < |u| {
      assert u[i + 1..] == u[i..][1..] == v[j..][1..] == v[j + 1..];
      FirstFromShift(u, i + 1, v, j + 1);
    }
  }

  /** The match lengths agree too when the texts agree. */
  lemma MatchAtShift(u: string, i: nat, v: string, j: nat)
    requires i <= |u| && j <= |v| && u[i..] == v[j..] && FlagAt(u, i)
    ensures MatchAt(u, i).len == MatchAt(v, j).len
    ensures Text(u, MatchAt(u, i)) == Text(v, MatchAt(v, j))
  {
    var n := FlagLen(u[i..]);
    assert u[i..i + n] == u[i..][..n] == v[j..][..n] == v[j..j + n];
  }
}
