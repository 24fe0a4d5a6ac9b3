/** The JavaScript string built-ins that lib/init.js relies on, on `string`
    (a sequence of characters): `indexOf`, `replace` with a string pattern
    and an empty replacement, `substr(0, n)` and `trim`. */
module JsString {

  /** The ECMAScript WhiteSpace and LineTerminator characters: exactly the
      characters the regular-expression class `\s` matches and `trim` strips. */
  predicate IsSpace(c: char) {
    || c == ' ' || c == '\t' || c == '\n' || c == '\r' || c == '\U{B}' || c == '\U{C}'
    || c == '\U{A0}' || c == '\U{1680}' || ('\U{2000}' <= c <= '\U{200A}')
    || c == '\U{2028}' || c == '\U{2029}' || c == '\U{202F}' || c == '\U{205F}'
    || c == '\U{3000}' || c == '\U{FEFF}'
  }

  /** t occurs in s starting at position j. */
  predicate OccursAt(s: string, t: string, j: int) {
    0 <= j && j + |t| <= |s| && s[j..j + |t|] == t
  }

  /** An occurrence of t at j is a prefix of the suffix at j. */
  lemma OccursAsPrefix(s: string, t: string, j: nat)
    requires OccursAt(s, t, j)
    ensures t <= s[j..]
  {
    assert s[j..][..|t|] == s[j..j + |t|];
  }

  /** `s.indexOf(t)`: the first position at which t occurs in s, or -1
      (the leftmost and absent cases are the lemmas below). */
  function IndexOf(s: string, t: string): (i: int)
    ensures i == -1 || OccursAt(s, t, i)
  {
    IndexOfFrom(s, t, 0)
  }

  function IndexOfFrom(s: string, t: string, from: nat): (i: int)
    ensures i == -1 || (from <= i && OccursAt(s, t, i))
    decreases |s| - from
  {
    if from + |t| > |s| then -1
    else if OccursAt(s, t, from) then from
    else IndexOfFrom(s, t, from + 1)
  }

  lemma {:induction false} IndexOfFromIs(s: string, t: string, from: nat, i: nat)
    requires from <= i && OccursAt(s, t, i)
    requires forall j :: from <= j < i ==> !OccursAt(s, t, j)
    ensures IndexOfFrom(s, t, from) == i
    decreases i - from
  {
    if from < i {
      IndexOfFromIs(s, t, from + 1, i);
    }
  }

  /** The first occurrence of t in s is at position i. */
  lemma IndexOfIs(s: string, t: string, i: nat)
    requires OccursAt(s, t, i)
    requires forall j :: 0 <= j < i ==> !OccursAt(s, t, j)
    ensures IndexOf(s, t) == i
  {
    IndexOfFromIs(s, t, 0, i);
  }

  lemma {:induction false} IndexOfFromMin(s: string, t: string, from: nat, j: nat)
    requires from <= j && OccursAt(s, t, j)
    ensures 0 <= IndexOfFrom(s, t, from) <= j
    decreases j - from
  {
    if from < j && !OccursAt(s, t, from) {
      IndexOfFromMin(s, t, from + 1, j);
    }
  }

  /** `indexOf` is -1 exactly when t occurs nowhere in s, and otherwise no
      occurrence lies before the position it returns. */
  lemma IndexOfLeftmost(s: string, t: string, j: nat)
    requires OccursAt(s, t, j)
    ensures 0 <= IndexOf(s, t) <= j
  {
    IndexOfFromMin(s, t, 0, j);
  }

  /** `s.replace(t, '')` with a string pattern: removes the first occurrence
      of t, and leaves s unchanged when t does not occur. */
  function ReplaceFirst(s: string, t: string): (r: string)
    ensures IndexOf(s, t) == -1 ==> r == s
    ensures IndexOf(s, t) >= 0 ==> |r| == |s| - |t|
  {
    var i := IndexOf(s, t);
    if i < 0 then s else s[..i] + s[i + |t|..]
  }

  /** Removing a prefix of s leaves the rest of s. */
  lemma ReplacePrefix(s: string, t: string)
    requires |t| <= |s| && s[..|t|] == t
    ensures ReplaceFirst(s, t) == s[|t|..]
  {
    IndexOfIs(s, t, 0);
  }

  /** Removing the first occurrence, at a known position i. */
  lemma ReplaceAt(s: string, t: string, i: nat)
    requires OccursAt(s, t, i)
    requires forall j :: 0 <= j < i ==> !OccursAt(s, t, j)
    ensures ReplaceFirst(s, t) == s[..i] + s[i + |t|..]
  {
    IndexOfIs(s, t, i);
  }

  /** Removing the first occurrence, once its position is known. */
  lemma ReplaceAtIndex(s: string, t: string, i: nat, j: nat)
    requires IndexOf(s, t) == i && i + |t| == j
    ensures ReplaceFirst(s, t) == s[..i] + s[j..]
  {
  }

  /** Slicing a concatenation past its first part. */
  lemma SliceConcat(a: string, b: string, k: nat, j: nat)
    requires k <= |b| && j == |a| + k
    ensures (a + b)[..|a|] == a
    ensures (a + b)[j..] == b[k..]
    ensures (a + b)[..j] == a + b[..k]
  {
  }

  /** Removing a text that first occurs right after `pre` in `pre + x`. */
  lemma RemoveAfterPrefix(pre: string, x: string, t: string, n: nat)
    requires IndexOf(pre + x, t) == |pre| && |t| == n <= |x|
    ensures ReplaceFirst(pre + x, t) == pre + x[n..]
  {
    ReplaceAtIndex(pre + x, t, |pre|, |pre| + n);
    CutAfterPrefix(pre, x, n, |pre| + n);
  }

  /** Cutting k characters of b out of a + b, right after a. */
  lemma CutAfterPrefix(a: string, b: string, k: nat, j: nat)
    requires k <= |b| && j == |a| + k
    ensures (a + b)[..|a|] + (a + b)[j..] == a + b[k..]
  {
    assert (a + b)[..|a|] == a;
    assert (a + b)[j..] == b[k..];
  }

  /** A string is its prefix up to i followed by its suffix from i. */
  lemma SplitAt(s: string, i: nat)
    requires i <= |s|
    ensures s[..i] + s[i..] == s
  {
  }

  /** Cutting the suffix at i at n is cutting s at i + n. */
  lemma SuffixSlices(s: string, i: nat, n: nat, j: nat)
    requires i + n == j <= |s|
    ensures s[i..][..n] == s[i..j] && s[i..][n..] == s[j..]
  {
  }

  /** The n characters from i, taken from the suffix at i. */
  lemma SliceOfSuffix(s: string, i: nat, n: nat)
    requires i + n <= |s|
    ensures s[i..i + n] == s[i..][..n]
  {
  }

  /** `s.substr(0, n)`: the first n characters, clamped to the string. */
  function Substr(s: string, n: int): (r: string)
    ensures |r| == if n <= 0 then 0 else if n <= |s| then n else |s|
    ensures r <= s
  {
    if n <= 0 then [] else if n >= |s| then s else s[..n]
  }

  /** Within the string, `substr(0, n)` is the slice up to n. */
  lemma SubstrPrefix(s: string, n: nat)
    requires n <= |s|
    ensures Substr(s, n) == s[..n]
  {
  }

  /** Leading white space removed. */
  function TrimStart(s: string): (r: string)
    ensures |r| <= |s| && r == s[|s| - |r|..]
    ensures forall k {:trigger IsSpace(s[k])} :: 0 <= k < |s| - |r| ==> IsSpace(s[k])
    ensures r == [] || !IsSpace(r[0])
  {
    if |s| > 0 && IsSpace(s[0]) then TrimStart(s[1..]) else s
  }

  /** Trailing white space removed. */
  function TrimEnd(s: string): (r: string)
    ensures |r| <= |s| && r == s[..|r|]
    ensures forall k {:trigger IsSpace(s[k])} :: |r| <= k < |s| ==> IsSpace(s[k])
    ensures r == [] || !IsSpace(r[|r| - 1])
  {
    if |s| > 0 && IsSpace(s[|s| - 1]) then TrimEnd(s[..|s| - 1]) else s
  }

  /** `s.trim()`. */
  function Trim(s: string): string {
    TrimEnd(TrimStart(s))
  }
}
