/** The decoder of lib/init.js:170-198 reads back what the `-verbose`
    format of lib/init.js:66 makes perlcritic print: on perlcritic's whole
    output, the `exec` loop finds one match per violation, in order, whose
    groups are the violation's fields. */
module RoundTrip {
  import opened Wrappers
  import opened OutputFormat
  import opened RecordPattern
  import opened PatternFacts
  import opened Diagnostics
  import opened RecordEncoding

  /** t sits in s from a to b. */
  ghost predicate Placed(s: string, a: nat, b: nat, t: string) {
    a <= b <= |s| && b - a == |t| && s[a..b] == t
  }

  /** Where the parts of one record sit in the text: the line number from
      `start`, the colon, the column up to the separator at `head`, then
      the separators after the message, explanation, policy, severity and
      discussion. */
  datatype Spots = Spots(start: nat, colon: nat, head: nat, s1: nat, s2: nat, s3: nat, s4: nat, s5: nat)

  /** The record for v sits in s at the places P says. */
  ghost predicate Laid(s: string, v: Violation, P: Spots) {
    FirstFieldsLaid(s, v, P) && LastFieldsLaid(s, v, P)
  }

  /** The line number, the column, the brief description, the explanation
      and the policy name sit at P, with the colon and separators between. */
  ghost predicate FirstFieldsLaid(s: string, v: Violation, P: Spots) {
    match P
    case Spots(q, colon, head, s1, s2, s3, _, _) =>
      && Placed(s, q, colon, NatStr(v.line))
      && Placed(s, colon, colon + 1, ":")
      && Placed(s, colon + 1, head, NatStr(v.column))
      && Placed(s, head, head + |Sep|, Sep) && Placed(s, head + |Sep|, s1, v.message)
      && Placed(s, s1, s1 + |Sep|, Sep) && Placed(s, s1 + |Sep|, s2, v.explanation)
      && Placed(s, s2, s2 + |Sep|, Sep) && Placed(s, s2 + |Sep|, s3, v.policy)
  }

  /** The severity and the discussion sit at P, each after a separator,
      then two separators and the newline. */
  ghost predicate LastFieldsLaid(s: string, v: Violation, P: Spots) {
    match P
    case Spots(_, _, _, _, _, s3, s4, s5) =>
      && Placed(s, s3, s3 + |Sep|, Sep) && Placed(s, s3 + |Sep|, s4, NatStr(v.severity))
      && Placed(s, s4, s4 + |Sep|, Sep) && Placed(s, s4 + |Sep|, s5, v.discussion)
      && Placed(s, s5, s5 + |Sep|, Sep) && Placed(s, s5 + |Sep|, s5 + 2 * |Sep|, Sep)
      && Placed(s, s5 + 2 * |Sep|, s5 + 2 * |Sep| + 1, "\n")
  }

  /** A text placed from a to c, split into its two parts at b. */
  lemma PlacedSplit(s: string, a: nat, b: nat, c: nat, x: string, y: string)
    requires Placed(s, a, c, x + y) && b == a + |x|
    ensures Placed(s, a, b, x) && Placed(s, b, c, y)
  {
    assert s[a..b] == (x + y)[..|x|];
    assert s[b..c] == (x + y)[|x|..];
  }

  /** A placed separator is a separator there. */
  lemma PlacedSep(s: string, a: nat, b: nat)
    requires Placed(s, a, b, Sep)
    ensures SepAt(s, a)
  {
    assert forall i :: 0 <= i < |Sep| ==> s[a + i] == s[a..b][i];
  }

  /** A placed single character. */
  lemma PlacedChar(s: string, a: nat, b: nat, c: char)
    requires Placed(s, a, b, [c])
    ensures a < |s| && s[a] == c
  {
    assert s[a] == s[a..b][0];
  }

  /** The places of the parts of the record for v at P follow from the
      lengths of its fields. */
  ghost predicate SpotsFor(v: Violation, P: Spots) {
    && P.colon == P.start + |NatStr(v.line)| && P.head == P.colon + 1 + |NatStr(v.column)|
    && P.s1 == P.head + |Sep| + |v.message| && P.s2 == P.s1 + |Sep| + |v.explanation|
    && P.s3 == P.s2 + |Sep| + |v.policy| && P.s4 == P.s3 + |Sep| + |NatStr(v.severity)|
    && P.s5 == P.s4 + |Sep| + |v.discussion|
  }

  /** The record for v, placed at P.start, is laid out as P says. */
  lemma RenderLaid(s: string, v: Violation, P: Spots)
    requires SpotsFor(v, P) && Placed(s, P.start, P.s5 + 2 * |Sep| + 1, Render(v))
    ensures Laid(s, v, P)
  {
    RenderLastFields(s, v, P);
    RenderFirstFields(s, v, P);
  }

  lemma RenderLastFields(s: string, v: Violation, P: Spots)
    requires SpotsFor(v, P) && Placed(s, P.start, P.s5 + 2 * |Sep| + 1, Render(v))
    ensures LastFieldsLaid(s, v, P)
    ensures Placed(s, P.start, P.s3, NatStr(v.line) + ":" + NatStr(v.column) + Sep + v.message + Sep
                                     + v.explanation + Sep + v.policy)
  {
    var L, C, V := NatStr(v.line), NatStr(v.column), NatStr(v.severity);
    var x := L + ":" + C + Sep + v.message + Sep + v.explanation + Sep + v.policy;
    LaidBack(s, P.start, x, V, v.discussion, P.s3, P.s4, P.s5, P.s5 + 2 * |Sep| + 1);
  }

  lemma RenderFirstFields(s: string, v: Violation, P: Spots)
    requires SpotsFor(v, P)
    requires Placed(s, P.start, P.s3, NatStr(v.line) + ":" + NatStr(v.column) + Sep + v.message + Sep
                                      + v.explanation + Sep + v.policy)
    ensures FirstFieldsLaid(s, v, P)
  {
    LaidFront(s, P.start, NatStr(v.line), NatStr(v.column), v.message, v.explanation, v.policy,
              P.colon, P.head, P.s1, P.s2, P.s3);
  }

  /** A field placed after a separator, at the end of a placed text. */
  lemma FieldAfter(s: string, a: nat, b: nat, c: nat, d: nat, x: string, t: string)
    requires Placed(s, a, d, x + Sep + t) && b == a + |x| && c == b + |Sep| && d == c + |t|
    ensures Placed(s, a, b, x) && Placed(s, b, c, Sep) && Placed(s, c, d, t)
  {
    PlacedSplit(s, a, c, d, x + Sep, t);
    PlacedSplit(s, a, b, c, x, Sep);
  }

  /** The first five fields of a record and what lies between them. */
  lemma LaidFront(s: string, q: nat, L: string, C: string, m: string, e: string, p: string,
                  colon: nat, head: nat, s1: nat, s2: nat, s3: nat)
    requires colon == q + |L| && head == colon + 1 + |C| && s1 == head + |Sep| + |m|
    requires s2 == s1 + |Sep| + |e| && s3 == s2 + |Sep| + |p|
    requires Placed(s, q, s3, L + ":" + C + Sep + m + Sep + e + Sep + p)
    ensures Placed(s, q, colon, L) && Placed(s, colon, colon + 1, ":") && Placed(s, colon + 1, head, C)
    ensures Placed(s, head, head + |Sep|, Sep) && Placed(s, head + |Sep|, s1, m)
    ensures Placed(s, s1, s1 + |Sep|, Sep) && Placed(s, s1 + |Sep|, s2, e)
    ensures Placed(s, s2, s2 + |Sep|, Sep) && Placed(s, s2 + |Sep|, s3, p)
  {
    FieldAfter(s, q, s2, s2 + |Sep|, s3, L + ":" + C + Sep + m + Sep + e, p);
    FieldAfter(s, q, s1, s1 + |Sep|, s2, L + ":" + C + Sep + m, e);
    FieldAfter(s, q, head, head + |Sep|, s1, L + ":" + C, m);
    PlacedSplit(s, q, colon + 1, head, L + ":", C);
    PlacedSplit(s, q, colon, colon + 1, L, ":");
  }

  /** The severity, the discussion and the end of a record after its
      first five fields x. */
  lemma LaidBack(s: string, q: nat, x: string, V: string, d: string, s3: nat, s4: nat, s5: nat, z: nat)
    requires s3 == q + |x| && s4 == s3 + |Sep| + |V| && s5 == s4 + |Sep| + |d| && z == s5 + 2 * |Sep| + 1
    requires Placed(s, q, z, x + Sep + V + Sep + d + Sep + Sep + "\n")
    ensures Placed(s, q, s3, x)
    ensures Placed(s, s3, s3 + |Sep|, Sep) && Placed(s, s3 + |Sep|, s4, V)
    ensures Placed(s, s4, s4 + |Sep|, Sep) && Placed(s, s4 + |Sep|, s5, d)
    ensures Placed(s, s5, s5 + |Sep|, Sep) && Placed(s, s5 + |Sep|, s5 + 2 * |Sep|, Sep)
    ensures Placed(s, s5 + 2 * |Sep|, z, "\n")
  {
    PlacedSplit(s, q, s5 + 2 * |Sep|, z, x + Sep + V + Sep + d + Sep + Sep, "\n");
    PlacedSplit(s, q, s5 + |Sep|, s5 + 2 * |Sep|, x + Sep + V + Sep + d + Sep, Sep);
    PlacedSplit(s, q, s5, s5 + |Sep|, x + Sep + V + Sep + d, Sep);
    FieldAfter(s, q, s4, s4 + |Sep|, s5, x + Sep + V, d);
    FieldAfter(s, q, s3, s3 + |Sep|, s4, x, V);
  }

  /** The separators, the colon and the closing newline of a laid-out record. */
  ghost predicate Marks(s: string, P: Spots) {
    && SepAt(s, P.head) && SepAt(s, P.s1) && SepAt(s, P.s2) && SepAt(s, P.s3)
    && SepAt(s, P.s4) && SepAt(s, P.s5) && SepAt(s, P.s5 + |Sep|)
    && P.colon < |s| && s[P.colon] == ':'
    && P.s5 + 2 * |Sep| < |s| && s[P.s5 + 2 * |Sep|] == '\n'
  }

  lemma LaidMarks(s: string, v: Violation, P: Spots)
    requires Placed(s, P.colon, P.colon + 1, ":")
    requires Placed(s, P.head, P.head + |Sep|, Sep) && Placed(s, P.s1, P.s1 + |Sep|, Sep)
    requires Placed(s, P.s2, P.s2 + |Sep|, Sep) && Placed(s, P.s3, P.s3 + |Sep|, Sep)
    requires Placed(s, P.s4, P.s4 + |Sep|, Sep) && Placed(s, P.s5, P.s5 + |Sep|, Sep)
    requires Placed(s, P.s5 + |Sep|, P.s5 + 2 * |Sep|, Sep)
    requires Placed(s, P.s5 + 2 * |Sep|, P.s5 + 2 * |Sep| + 1, "\n")
    ensures Marks(s, P)
  {
    PlacedSep(s, P.head, P.head + |Sep|);
    PlacedSep(s, P.s1, P.s1 + |Sep|);
    PlacedSep(s, P.s2, P.s2 + |Sep|);
    PlacedSep(s, P.s3, P.s3 + |Sep|);
    PlacedSep(s, P.s4, P.s4 + |Sep|);
    PlacedSep(s, P.s5, P.s5 + |Sep|);
    PlacedSep(s, P.s5 + |Sep|, P.s5 + 2 * |Sep|);
    PlacedChar(s, P.colon, P.colon + 1, ':');
    PlacedChar(s, P.s5 + 2 * |Sep|, P.s5 + 2 * |Sep| + 1, '\n');
  }

  /** No line terminator from a up to b. */
  ghost predicate NoBreakIn(s: string, a: nat, b: nat) {
    b <= |s| && forall i {:trigger IsLineTerminator(s[i])} :: a <= i < b ==> !IsLineTerminator(s[i])
  }

  lemma PlacedDigits(s: string, a: nat, b: nat, t: string)
    requires Placed(s, a, b, t) && AllDigits(t)
    ensures forall i {:trigger IsDigit(s[i])} :: a <= i < b ==> IsDigit(s[i])
  {
    forall i | a <= i < b ensures IsDigit(s[i]) {
      assert s[i] == s[a..b][i - a];
      assert IsDigit(t[i - a]);
    }
  }

  lemma PlacedNoTilde(s: string, a: nat, b: nat, t: string)
    requires Placed(s, a, b, t) && NoTilde(t)
    ensures forall x :: a <= x < b ==> s[x] != '~'
  {
    forall x | a <= x < b ensures s[x] != '~' {
      assert s[x] == s[a..b][x - a];
    }
  }

  lemma PlacedNoBreak(s: string, a: nat, b: nat, t: string)
    requires Placed(s, a, b, t) && NoLineBreak(t)
    ensures NoBreakIn(s, a, b)
  {
    forall i | a <= i < b ensures !IsLineTerminator(s[i]) {
      assert s[i] == s[a..b][i - a];
      assert !IsLineTerminator(t[i - a]);
    }
  }

  lemma DigitsNoBreak(t: string)
    requires AllDigits(t)
    ensures NoLineBreak(t)
  {
    forall i | 0 <= i < |t| ensures !IsLineTerminator(t[i]) {
      assert IsDigit(t[i]);
    }
  }

  lemma SepNoBreak(s: string, a: nat)
    requires SepAt(s, a)
    ensures NoBreakIn(s, a, a + |Sep|)
  {
    assert forall i :: a <= i < a + |Sep| ==> s[i] == Sep[i - a];
  }

  lemma NoBreakJoin(s: string, a: nat, b: nat, c: nat)
    requires NoBreakIn(s, a, b) && NoBreakIn(s, b, c)
    ensures NoBreakIn(s, a, c)
  {
  }

  /** A separator, then a field on one line. */
  lemma SepFieldNoBreak(s: string, a: nat, b: nat, t: string)
    requires SepAt(s, a) && Placed(s, a + |Sep|, b, t) && NoLineBreak(t)
    ensures NoBreakIn(s, a, b)
  {
    SepNoBreak(s, a);
    PlacedNoBreak(s, a + |Sep|, b, t);
    NoBreakJoin(s, a, a + |Sep|, b);
  }

  /** The parts of a record laid out at P, read off s by position alone:
      the marks, the order of the separators, and what a well-formed
      violation guarantees of the text between them. */
  ghost predicate Shape(s: string, P: Spots) {
    match P
    case Spots(p, la, h, a, b, c, f, t) =>
      && Marks(s, P)
      && p < la && la + 1 < h && h + |Sep| < a
      && a + |Sep| < b && b + |Sep| < c && c + |Sep| < f && f + |Sep| < t
      && AllDigits(s[p..la]) && AllDigits(s[la + 1..h])
      && NoLineBreak(s[h + |Sep|..a])
      && InnerField(s[a + |Sep|..b]) && InnerField(s[b + |Sep|..c])
      && AllDigits(s[c + |Sep|..f]) && InnerDiscussion(s[f + |Sep|..t])
  }

  /** A well-formed record laid out at P has the shape P says. */
  lemma LaidShape(s: string, v: Violation, P: Spots)
    requires Marks(s, P) && WellFormed(v)
    requires Placed(s, P.start, P.colon, NatStr(v.line)) && Placed(s, P.colon + 1, P.head, NatStr(v.column))
    requires Placed(s, P.head + |Sep|, P.s1, v.message) && Placed(s, P.s1 + |Sep|, P.s2, v.explanation)
    requires Placed(s, P.s2 + |Sep|, P.s3, v.policy) && Placed(s, P.s3 + |Sep|, P.s4, NatStr(v.severity))
    requires Placed(s, P.s4 + |Sep|, P.s5, v.discussion)
    requires P.colon + 1 <= P.head && P.head + |Sep| <= P.s1 && P.s1 + |Sep| <= P.s2
    requires P.s2 + |Sep| <= P.s3 && P.s3 + |Sep| <= P.s4 && P.s4 + |Sep| <= P.s5
    ensures Shape(s, P)
  {
  }

  /** From the first separator to the end of the separator after the
      severity, a record of that shape has no line terminator. */
  lemma ShapeOneLine(s: string, P: Spots)
    requires Shape(s, P)
    ensures NoBreakIn(s, P.head, P.s4 + |Sep|)
  {
    SepFieldNoBreak(s, P.head, P.s1, s[P.head + |Sep|..P.s1]);
    SepFieldNoBreak(s, P.s1, P.s2, s[P.s1 + |Sep|..P.s2]);
    NoBreakJoin(s, P.head, P.s1, P.s2);
    SepFieldNoBreak(s, P.s2, P.s3, s[P.s2 + |Sep|..P.s3]);
    NoBreakJoin(s, P.head, P.s2, P.s3);
    DigitsNoBreak(s[P.s3 + |Sep|..P.s4]);
    SepFieldNoBreak(s, P.s3, P.s4, s[P.s3 + |Sep|..P.s4]);
    NoBreakJoin(s, P.head, P.s3, P.s4);
    SepNoBreak(s, P.s4);
    NoBreakJoin(s, P.head, P.s4, P.s4 + |Sep|);
  }

  /** The line that starts at j reaches at least to k when nothing in
      between ends it. */
  lemma LineEndAtLeast(s: string, j: nat, k: nat)
    requires j <= k && NoBreakIn(s, j, k)
    ensures k <= LineEnd(s, j)
  {
  }

  /** The line that starts at j ends at k or before when `$` holds at k. */
  lemma LineEndAtMost(s: string, j: nat, k: nat)
    requires j <= k <= |s| && EndsLineAt(s, k)
    ensures LineEnd(s, j) <= k
  {
  }

  /** Every position from a to the end of its line belongs to that line. */
  lemma SameLine(s: string, a: nat, E: nat)
    requires a <= |s| && E == LineEnd(s, a)
    ensures forall j :: a <= j <= E ==> LineEnd(s, j) == E
  {
    forall j | a <= j <= E ensures LineEnd(s, j) == E {
      LineEndIs(s, j, E);
    }
  }

  /** The head of the pattern takes the line number and the column. */
  lemma LaidHead(s: string, p: nat, la: nat, h: nat, line: string, column: string)
    requires Placed(s, p, la, line) && |line| > 0 && AllDigits(line) && la < |s| && s[la] == ':'
    requires Placed(s, la + 1, h, column) && |column| > 0 && AllDigits(column) && SepAt(s, h)
    ensures HeadAt(s, p) == Some(Head(la, h))
  {
    PlacedDigits(s, p, la, line);
    DigitRunIs(s, p, la - p);
    PlacedDigits(s, la + 1, h, column);
    DigitRunIs(s, la + 1, h - la - 1);
    HeadIs(s, p, la, h);
  }

  /** A field with no `~` that is not `lpc`, between two separators, holds
      no other separator. */
  lemma FieldNoSep(s: string, a: nat, b: nat, t: string)
    requires SepAt(s, a) && SepAt(s, b) && Placed(s, a + |Sep|, b, t) && NoTilde(t) && t != "lpc"
    ensures NoSepIn(s, a, b)
  {
    PlacedNoTilde(s, a + |Sep|, b, t);
    NoSepBetween(s, a, b);
  }

  /** Digits have no `~` and are not `lpc`. */
  lemma DigitsInner(t: string)
    requires AllDigits(t)
    ensures NoTilde(t) && t != "lpc"
  {
    if |t| == 3 {
      assert IsDigit(t[0]);
    }
    forall i | 0 <= i < |t| ensures t[i] != '~' {
      assert IsDigit(t[i]);
    }
  }

  /** No separator starts inside a field with no `~`. */
  lemma NoSepInField(s: string, a: nat, b: nat, t: string)
    requires Placed(s, a, b, t) && NoTilde(t)
    ensures forall x :: a <= x < b ==> !SepAt(s, x)
  {
    PlacedNoTilde(s, a, b, t);
    forall x | a <= x < b ensures !SepAt(s, x) {
      NotSepAt(s, x, 0);
    }
  }

  /** The tail after the policy: the severity, then the discussion up to
      the doubled separator before the newline. */
  lemma LaidTail(s: string, a: nat, b: nat, t: nat, sev: string, d: string)
    requires Placed(s, a, b, sev) && AllDigits(sev) && SepAt(s, b)
    requires Placed(s, b + |Sep|, t, d) && |d| > 0 && NoTilde(d)
    requires SepAt(s, t) && SepAt(s, t + |Sep|) && t + 2 * |Sep| < |s| && s[t + 2 * |Sep|] == '\n'
    requires a < b
    ensures TailAt(s, a) == Some(Tail(b, t))
  {
    RunBeforeSep(s, a, b, sev);
    LazyAfterField(s, b + |Sep|, t, d);
    TailIs(s, a, b, t);
  }

  /** Digits placed up to a separator are the whole run of digits there. */
  lemma RunBeforeSep(s: string, a: nat, b: nat, t: string)
    requires Placed(s, a, b, t) && AllDigits(t) && SepAt(s, b)
    ensures DigitRun(s, a) == b - a
  {
    PlacedDigits(s, a, b, t);
    DigitRunIs(s, a, b - a);
  }

  /** A field with no `~` placed before a doubled separator at the end of a
      line: the lazy group ends there. */
  lemma LazyAfterField(s: string, a: nat, b: nat, t: string)
    requires Placed(s, a, b, t) && |t| > 0 && NoTilde(t)
    requires SepAt(s, b) && SepAt(s, b + |Sep|) && b + 2 * |Sep| < |s| && s[b + 2 * |Sep|] == '\n'
    ensures LazyEnd(s, a + 1) == Some(b)
  {
    NoSepInField(s, a, b, t);
    LazyFinds(s, a + 1, b);
  }

  /** The tail from its parts. */
  lemma TailIs(s: string, k: nat, b: nat, t: nat)
    requires k < b <= |s| && DigitRun(s, k) == b - k && SepAt(s, b)
    requires LazyEnd(s, b + |Sep| + 1) == Some(t)
    ensures TailAt(s, k) == Some(Tail(b, t))
  {
  }

  /** The discussion between the separator at f and the doubled one at t,
      with the newline after them. */
  ghost predicate DiscussionAt(s: string, f: nat, t: nat, d: string) {
    && SepAt(s, f) && Placed(s, f + |Sep|, t, d) && InnerDiscussion(d)
    && SepAt(s, t) && SepAt(s, t + |Sep|) && t + 2 * |Sep| < |s| && s[t + 2 * |Sep|] == '\n'
  }

  /** What the well-formedness of a violation asks of its discussion. */
  predicate InnerDiscussion(d: string) {
    |d| > 0 && NoTilde(d) && d != "lpc" && !AllDigits(d)
  }

  /** In the record's last part, separators start only after the severity
      and around the discussion's end. */
  lemma LastSeps(s: string, f: nat, t: nat, d: string, x: nat)
    requires DiscussionAt(s, f, t, d)
    requires f <= x <= t + 2 * |Sep| && x != f && x != t && x != t + |Sep|
    ensures !SepAt(s, x)
  {
    if x < f + |Sep| {
      PlacedNoTilde(s, f + |Sep|, t, d);
      NoSepInsideSep(s, f, t, x);
    } else if x < t {
      NoSepInField(s, f + |Sep|, t, d);
    } else if x < t + |Sep| {
      assert s[t + |Sep|..t + |Sep|] == [];
      NoSepInsideSep(s, t, t + |Sep|, x);
    } else {
      NotSepAt(s, x, t + 2 * |Sep| - x);
    }
  }

  /** The severity group cannot end inside the discussion, which is not all
      digits: the tail that starts after the separator at f does not match. */
  lemma TailAfterSeverity(s: string, f: nat, t: nat, d: string)
    requires Placed(s, f + |Sep|, t, d) && NoTilde(d) && !AllDigits(d)
    ensures TailAt(s, f + |Sep|).None?
  {
    var k := f + |Sep|;
    var n := DigitRun(s, k);
    var i :| 0 <= i < |d| && !IsDigit(d[i]);
    assert s[k + i] == s[k..t][i];
    assert n <= i;
    if n > 0 {
      PlacedNoTilde(s, k, t, d);
      NotSepAt(s, k + n, 0);
    }
  }

  /** No tail matches after the separators after the discussion. */
  lemma TailAfterDiscussion(s: string, t: nat)
    requires SepAt(s, t + |Sep|) && t + 2 * |Sep| < |s| && s[t + 2 * |Sep|] == '\n'
    ensures TailAt(s, t + |Sep|).None? && TailAt(s, t + 2 * |Sep|).None?
  {
  }

  /** No tail matches right after a separator from the one at f up to the
      end E of the line. */
  ghost predicate NoTailFrom(s: string, f: nat, E: nat) {
    forall k :: f + |Sep| <= k <= E + |Sep| && SepAt(s, k - |Sep|) ==> TailAt(s, k).None?
  }

  /** After the separator after the severity, no later end of the policy
      group lets the tail match. */
  lemma LaidLaterTails(s: string, f: nat, t: nat, d: string, E: nat)
    requires DiscussionAt(s, f, t, d) && E <= t + 2 * |Sep|
    ensures NoTailFrom(s, f, E)
  {
    TailAfterSeverity(s, f, t, d);
    TailAfterDiscussion(s, t);
    forall k | f + |Sep| <= k <= E + |Sep| && SepAt(s, k - |Sep|) ensures TailAt(s, k).None? {
      var x := k - |Sep|;
      if x != f && x != t && x != t + |Sep| {
        LastSeps(s, f, t, d, x);
        assert false;
      }
    }
  }

  /** The facts `Layout` gathers, for the separators at h, a, b, c, f and
      the one at t that starts the doubled separator, on the line ending at E. */
  ghost predicate Parts(s: string, h: nat, a: nat, b: nat, c: nat, f: nat, t: nat, E: nat) {
    && E <= |s| && EndsLineAt(s, E)
    && SepAt(s, h) && SepAt(s, a) && SepAt(s, b) && SepAt(s, c)
    && h + |Sep| < a && a + |Sep| < b && b + |Sep| < c && c + |Sep| < f && f + |Sep| <= E
    && (forall j :: h <= j <= E ==> LineEnd(s, j) == E)
    && NoSepIn(s, a, b) && NoSepIn(s, b, c) && NoSepIn(s, c, f)
    && TailAt(s, c + |Sep|) == Some(Tail(f, t))
    && NoTailFrom(s, f, E)
  }

  lemma PartsLayout(s: string, h: nat, a: nat, b: nat, c: nat, f: nat, t: nat, E: nat)
    requires Parts(s, h, a, b, c, f, t, E)
    ensures Layout(s, [h, a, b, c, f, t], E)
  {
  }

  lemma LayoutGreedyLine(s: string, h: nat, a: nat, b: nat, c: nat, f: nat, t: nat, E: nat)
    requires Layout(s, [h, a, b, c, f, t], E)
    ensures GreedyLine(s, E, h + |Sep|, a, b, c, Tail(f, t))
  {
    LayoutLine(s, [h, a, b, c, f, t], E);
  }

  /* The same three steps for the record laid out at P, each fact about
     its separators kept whole between the steps. */

  ghost predicate PartsAt(s: string, P: Spots, E: nat) {
    match P
    case Spots(_, _, h, a, b, c, f, t) => Parts(s, h, a, b, c, f, t, E)
  }

  ghost predicate LayoutAt(s: string, P: Spots, E: nat) {
    match P
    case Spots(_, _, h, a, b, c, f, t) => Layout(s, [h, a, b, c, f, t], E)
  }

  ghost predicate GreedyLineAt(s: string, P: Spots, E: nat) {
    match P
    case Spots(_, _, h, a, b, c, f, t) => GreedyLine(s, E, h + |Sep|, a, b, c, Tail(f, t))
  }

  /** The three greedy groups of the record laid out at P end at its
      separators after the message, the explanation and the policy. */
  ghost predicate GroupsAt(s: string, P: Spots) {
    match P
    case Spots(_, _, h, a, b, c, f, t) =>
      && h + |Sep| < a && a + |Sep| < b && b + |Sep| < c && c + |Sep| < f
      && f + |Sep| < t && t + 2 * |Sep| <= |s|
      && GreedyAt(s, h + |Sep|, 3) == Some(Groups([a, b, c], Tail(f, t)))
  }

  lemma PartsAtLayout(s: string, P: Spots, E: nat)
    requires PartsAt(s, P, E)
    ensures LayoutAt(s, P, E)
  {
    PartsLayout(s, P.head, P.s1, P.s2, P.s3, P.s4, P.s5, E);
  }

  lemma LayoutAtGreedyLine(s: string, P: Spots, E: nat)
    requires LayoutAt(s, P, E)
    ensures GreedyLineAt(s, P, E)
  {
    LayoutGreedyLine(s, P.head, P.s1, P.s2, P.s3, P.s4, P.s5, E);
  }

  lemma GreedyLineAtGroups(s: string, P: Spots, E: nat)
    requires GreedyLineAt(s, P, E)
    ensures GroupsAt(s, P)
  {
    ChainGroups(s, E, P.head + |Sep|, P.s1, P.s2, P.s3, Tail(P.s4, P.s5));
  }

  /** The line that holds the message: it runs past the separator after
      the severity, and ends at the latest at the newline after the record. */
  lemma ShapeLine(s: string, P: Spots, E: nat)
    requires Shape(s, P) && E == LineEnd(s, P.head)
    ensures P.s4 + |Sep| <= E <= P.s5 + 2 * |Sep|
    ensures forall j :: P.head <= j <= E ==> LineEnd(s, j) == E
  {
    ShapeOneLine(s, P);
    LineEndAtLeast(s, P.head, P.s4 + |Sep|);
    LineEndAtMost(s, P.head, P.s5 + 2 * |Sep|);
    SameLine(s, P.head, E);
  }

  /** The facts of `Layout` for a record of that shape. */
  lemma ShapeParts(s: string, P: Spots, E: nat)
    requires Shape(s, P) && E == LineEnd(s, P.head)
    ensures PartsAt(s, P, E)
  {
    ShapeLine(s, P, E);
    ShapeSeps(s, P);
    ShapeTails(s, P, E);
  }

  /** Between the separators after the message and after the severity, a
      record of that shape holds no other separator. */
  lemma ShapeSeps(s: string, P: Spots)
    requires Shape(s, P)
    ensures NoSepIn(s, P.s1, P.s2) && NoSepIn(s, P.s2, P.s3) && NoSepIn(s, P.s3, P.s4)
  {
    FieldNoSep(s, P.s1, P.s2, s[P.s1 + |Sep|..P.s2]);
    FieldNoSep(s, P.s2, P.s3, s[P.s2 + |Sep|..P.s3]);
    DigitsInner(s[P.s3 + |Sep|..P.s4]);
    FieldNoSep(s, P.s3, P.s4, s[P.s3 + |Sep|..P.s4]);
  }

  /** The tail matches after the separator after the policy, and after no
      later separator on the line. */
  lemma ShapeTails(s: string, P: Spots, E: nat)
    requires Shape(s, P) && E <= P.s5 + 2 * |Sep|
    ensures TailAt(s, P.s3 + |Sep|) == Some(Tail(P.s4, P.s5))
    ensures NoTailFrom(s, P.s4, E)
  {
    var d := s[P.s4 + |Sep|..P.s5];
    LaidTail(s, P.s3 + |Sep|, P.s4, P.s5, s[P.s3 + |Sep|..P.s4], d);
    LaidLaterTails(s, P.s4, P.s5, d, E);
  }

  /** The pattern matches a well-formed record laid out in s, from its
      first character to its newline, and captures its fields. */
  lemma LaidMatch(s: string, v: Violation, P: Spots)
    requires Laid(s, v, P) && WellFormed(v)
    ensures MatchAt(s, P.start) == Some(RecordMatch(P.start, P.s5 + 2 * |Sep|, CapturesOf(v)))
  {
    LaidMarks(s, v, P);
    LaidShape(s, v, P);
    ShapeMatch(s, P);
    LaidCaptures(s, v, P);
    RecordAtIs(s, P, CapturesOf(v));
  }

  /** The pattern matches the record laid out at P, from its first
      character to its newline, its groups the text between the marks. */
  ghost predicate RecordAt(s: string, P: Spots) {
    match P
    case Spots(p, la, h, a, b, c, f, t) =>
      && p < la < la + 1 < h && h + |Sep| < a && a + |Sep| < b && b + |Sep| < c
      && c + |Sep| < f && f + |Sep| < t && t + 2 * |Sep| <= |s|
      && MatchAt(s, p) == Some(RecordMatch(p, t + 2 * |Sep|, Captures(
           s[p..la], s[la + 1..h], s[h + |Sep|..a], s[a + |Sep|..b], s[b + |Sep|..c],
           s[c + |Sep|..f], s[f + |Sep|..t])))
  }

  lemma RecordAtIs(s: string, P: Spots, groups: Captures)
    requires RecordAt(s, P)
    requires groups == Captures(s[P.start..P.colon], s[P.colon + 1..P.head], s[P.head + |Sep|..P.s1],
                                s[P.s1 + |Sep|..P.s2], s[P.s2 + |Sep|..P.s3], s[P.s3 + |Sep|..P.s4],
                                s[P.s4 + |Sep|..P.s5])
    ensures MatchAt(s, P.start) == Some(RecordMatch(P.start, P.s5 + 2 * |Sep|, groups))
  {
  }

  /** The head of the pattern matches the record laid out at P. */
  ghost predicate HeadFits(s: string, P: Spots) {
    match P
    case Spots(p, la, h, _, _, _, _, _) =>
      && p < la < la + 1 < h && SepAt(s, h)
      && AllDigits(s[p..la]) && AllDigits(s[la + 1..h])
      && HeadAt(s, p) == Some(Head(la, h))
  }

  /** A record of that shape is matched whole. */
  lemma ShapeMatch(s: string, P: Spots)
    requires Shape(s, P)
    ensures RecordAt(s, P)
  {
    ShapeHead(s, P);
    ShapeGroups(s, P);
    HeadGroupsRecord(s, P);
  }

  lemma ShapeHead(s: string, P: Spots)
    requires Shape(s, P)
    ensures HeadFits(s, P)
  {
    LaidHead(s, P.start, P.colon, P.head, s[P.start..P.colon], s[P.colon + 1..P.head]);
  }

  lemma HeadGroupsRecord(s: string, P: Spots)
    requires HeadFits(s, P) && GroupsAt(s, P)
    ensures RecordAt(s, P)
  {
    HeadBodyMatch(s, P.start, P.colon, P.head, P.s1, P.s2, P.s3, P.s4, P.s5);
  }

  /** With the head matched and the greedy groups at the separators, the
      pattern matches the whole record. */
  lemma HeadBodyMatch(s: string, p: nat, la: nat, h: nat, a: nat, b: nat, c: nat, f: nat, t: nat)
    requires p < la < la + 1 < h && SepAt(s, h)
    requires AllDigits(s[p..la]) && AllDigits(s[la + 1..h])
    requires HeadAt(s, p) == Some(Head(la, h))
    requires h + |Sep| < a && a + |Sep| < b && b + |Sep| < c && c + |Sep| < f
    requires f + |Sep| < t && t + 2 * |Sep| <= |s|
    requires GreedyAt(s, h + |Sep|, 3) == Some(Groups([a, b, c], Tail(f, t)))
    ensures MatchAt(s, p) == Some(RecordMatch(p, t + 2 * |Sep|, Captures(
              s[p..la], s[la + 1..h], s[h + |Sep|..a], s[a + |Sep|..b], s[b + |Sep|..c],
              s[c + |Sep|..f], s[f + |Sep|..t])))
  {
    BodyAt(s, p, la, h, a, b, c, f, t);
    RecordMatchAt(s, p, la, h);
  }

  /** On a record of that shape, the greedy groups end at its separators. */
  lemma ShapeGroups(s: string, P: Spots)
    requires Shape(s, P)
    ensures GroupsAt(s, P)
  {
    var E := LineEnd(s, P.head);
    ShapeParts(s, P, E);
    PartsAtLayout(s, P, E);
    LayoutAtGreedyLine(s, P, E);
    GreedyLineAtGroups(s, P, E);
  }

  /** `BodyMatch` with the tail's ends named. */
  lemma BodyAt(s: string, p: nat, la: nat, h: nat, a: nat, b: nat, c: nat, f: nat, t: nat)
    requires p < la < la + 1 < h && SepAt(s, h)
    requires AllDigits(s[p..la]) && AllDigits(s[la + 1..h])
    requires GreedyAt(s, h + |Sep|, 3) == Some(Groups([a, b, c], Tail(f, t)))
    requires h + |Sep| < a && a + |Sep| < b && b + |Sep| < c && c + |Sep| < f
    requires f + |Sep| < t && t + 2 * |Sep| <= |s|
    ensures MatchBody(s, p, la, h) == Some(RecordMatch(p, t + 2 * |Sep|, Captures(
              s[p..la], s[la + 1..h], s[h + |Sep|..a], s[a + |Sep|..b], s[b + |Sep|..c],
              s[c + |Sep|..f], s[f + |Sep|..t])))
  {
    BodyMatch(s, p, la, h, a, b, c, Tail(f, t));
  }

  /** The text between the separators of a laid-out record is its fields. */
  lemma LaidCaptures(s: string, v: Violation, P: Spots)
    requires Placed(s, P.start, P.colon, NatStr(v.line)) && Placed(s, P.colon + 1, P.head, NatStr(v.column))
    requires Placed(s, P.head + |Sep|, P.s1, v.message) && Placed(s, P.s1 + |Sep|, P.s2, v.explanation)
    requires Placed(s, P.s2 + |Sep|, P.s3, v.policy) && Placed(s, P.s3 + |Sep|, P.s4, NatStr(v.severity))
    requires Placed(s, P.s4 + |Sep|, P.s5, v.discussion)
    ensures Captures(s[P.start..P.colon], s[P.colon + 1..P.head], s[P.head + |Sep|..P.s1],
                     s[P.s1 + |Sep|..P.s2], s[P.s2 + |Sep|..P.s3], s[P.s3 + |Sep|..P.s4],
                     s[P.s4 + |Sep|..P.s5]) == CapturesOf(v)
  {
  }

  /** The record for a well-formed violation, wherever it sits in
      perlcritic's output, is matched by the record pattern from its first
      character up to its closing newline, and the groups are the
      violation's fields as printed. */
  lemma RecordMatches(s: string, v: Violation, q: nat)
    requires Placed(s, q, q + |Render(v)|, Render(v)) && WellFormed(v)
    ensures MatchAt(s, q) == Some(RecordMatch(q, q + |Render(v)| - 1, CapturesOf(v)))
  {
    var P := SpotsAt(v, q);
    RenderEnd(v, P);
    RenderMatch(s, v, P);
  }

  /** The places of the parts of the record for v when it starts at q. */
  function SpotsAt(v: Violation, q: nat): (P: Spots)
    ensures P.start == q && SpotsFor(v, P)
  {
    var colon := q + |NatStr(v.line)|;
    var head := colon + 1 + |NatStr(v.column)|;
    var s1 := head + |Sep| + |v.message|;
    var s2 := s1 + |Sep| + |v.explanation|;
    var s3 := s2 + |Sep| + |v.policy|;
    var s4 := s3 + |Sep| + |NatStr(v.severity)|;
    Spots(q, colon, head, s1, s2, s3, s4, s4 + |Sep| + |v.discussion|)
  }

  lemma RenderMatch(s: string, v: Violation, P: Spots)
    requires SpotsFor(v, P) && Placed(s, P.start, P.s5 + 2 * |Sep| + 1, Render(v)) && WellFormed(v)
    ensures MatchAt(s, P.start) == Some(RecordMatch(P.start, P.s5 + 2 * |Sep|, CapturesOf(v)))
  {
    RenderLaid(s, v, P);
    LaidMatch(s, v, P);
  }

  /** The record for v placed at q ends with its newline after the two
      separators that follow the discussion. */
  lemma RenderEnd(v: Violation, P: Spots)
    requires SpotsFor(v, P)
    ensures P.start + |Render(v)| == P.s5 + 2 * |Sep| + 1
  {
  }
}
