/** The record pattern of lib/init.js:170-177, matched by hand with the
    backtracking order of an ECMAScript regular expression with the `g` and
    `m` flags:

      (\d+):(\d+)SEP(.+)SEP(.+)SEP(.+)SEP(\d+)SEP([\s\S]+?)SEPSEP$

    where SEP is the private separator `~~lpc~~`. The three `(.+)` groups
    are greedy and stay within one line; `([\s\S]+?)` is lazy and may span
    lines; `$` holds at the end of the text or before a line terminator. */
module RecordPattern {
  import opened Wrappers
  import opened OutputFormat

  /** The ECMAScript LineTerminator characters: what `.` does not match and
      what `$` may stand before in multiline mode. */
  predicate IsLineTerminator(c: char) {
    c == '\n' || c == '\r' || c == '\U{2028}' || c == '\U{2029}'
  }

  /** No character of t ends a line. */
  predicate NoLineBreak(t: string) {
    forall i {:trigger IsLineTerminator(t[i])} :: 0 <= i < |t| ==> !IsLineTerminator(t[i])
  }

  /** The class `\d`. */
  predicate IsDigit(c: char) {
    '0' <= c <= '9'
  }

  /** Every character is a decimal digit, as in the text a `\d+` group captures. */
  predicate AllDigits(ds: string) {
    forall i {:trigger IsDigit(ds[i])} :: 0 <= i < |ds| ==> IsDigit(ds[i])
  }

  /** Length of the run of digits that starts at k. A `\d+` group followed by
      a character that is not a digit can only take the whole run. */
  function DigitRun(s: string, k: nat): (n: nat)
    requires k <= |s|
    ensures k + n <= |s|
    ensures forall i {:trigger IsDigit(s[i])} :: k <= i < k + n ==> IsDigit(s[i])
    ensures k + n == |s| || !IsDigit(s[k + n])
    decreases |s| - k
  {
    if k < |s| && IsDigit(s[k]) then 1 + DigitRun(s, k + 1) else 0
  }

  /** The separator `~~lpc~~` occurs at position k. */
  predicate SepAt(s: string, k: nat) {
    && k + |Sep| <= |s|
    && s[k] == '~' && s[k + 1] == '~' && s[k + 2] == 'l' && s[k + 3] == 'p'
    && s[k + 4] == 'c' && s[k + 5] == '~' && s[k + 6] == '~'
  }

  /** `$` in multiline mode holds at position k. */
  predicate EndsLineAt(s: string, k: nat) {
    k == |s| || (k < |s| && IsLineTerminator(s[k]))
  }

  /** The first position at or after j where `$` holds: the end of the line
      that a `(.+)` group starting at j cannot leave. */
  function LineEnd(s: string, j: nat): (e: nat)
    requires j <= |s|
    ensures j <= e <= |s| && EndsLineAt(s, e)
    ensures forall i {:trigger IsLineTerminator(s[i])} :: j <= i < e ==> !IsLineTerminator(s[i])
    decreases |s| - j
  {
    if j == |s| || IsLineTerminator(s[j]) then j else LineEnd(s, j + 1)
  }

  /** Where the severity group ends and where the discussion group ends; the
      whole match ends after the two separators that follow the discussion. */
  datatype Tail = Tail(sevEnd: nat, discEnd: nat)

  /** The greedy groups' ends, each at a separator, and the tail after them. */
  datatype Groups = Groups(ends: seq<nat>, tail: Tail)

  /** `SEPSEP$` at x: two separators, then the end of a line. */
  predicate ClosesAt(s: string, x: nat) {
    SepAt(s, x) && SepAt(s, x + |Sep|) && EndsLineAt(s, x + 2 * |Sep|)
  }

  /** The lazy `([\s\S]+?)SEPSEP$`: the smallest t at or after `from` where
      two separators follow and `$` holds after them. A lone separator, or
      two that do not end a line, do not stop it. */
  function LazyEnd(s: string, from: nat): (r: Option<nat>)
    ensures r.Some? ==> from <= r.value && r.value + 2 * |Sep| <= |s|
    ensures r.Some? ==> SepAt(s, r.value) && SepAt(s, r.value + |Sep|) && EndsLineAt(s, r.value + 2 * |Sep|)
    ensures r.Some? ==> forall x :: from <= x < r.value ==> !ClosesAt(s, x)
    ensures r.None? ==> forall x :: from <= x ==> !ClosesAt(s, x)
    decreases |s| - from
  {
    if from + 2 * |Sep| > |s| then None
    else if ClosesAt(s, from) then Some(from)
    else LazyEnd(s, from + 1)
  }

  /** `(\d+)SEP([\s\S]+?)SEPSEP$` at position k. */
  function TailAt(s: string, k: nat): (r: Option<Tail>)
    requires k <= |s|
    ensures r.Some? ==> k < r.value.sevEnd && r.value.sevEnd + |Sep| < r.value.discEnd
    ensures r.Some? ==> SepAt(s, r.value.sevEnd) && r.value.discEnd + 2 * |Sep| <= |s|
    ensures r.Some? ==> ClosesAt(s, r.value.discEnd)
    ensures r.Some? ==> AllDigits(s[k..r.value.sevEnd])
  {
    var n := DigitRun(s, k);
    if n == 0 || !SepAt(s, k + n) then None
    else match LazyEnd(s, k + n + |Sep| + 1)
      case None => None
      case Some(t) => Some(Tail(k + n, t))
  }

  /** The groups match in order: each greedy group takes at least one
      character and ends at a separator, the greedy groups and the
      separators between them lie on one line, and the tail comes after
      them, closed by two separators at the end of a line. */
  ghost predicate Chained(s: string, j: nat, n: nat, g: Groups) {
    && |g.ends| == n
    && (n > 0 ==> forall x {:trigger IsLineTerminator(s[x])} :: j <= x < g.ends[n - 1] && x < |s| ==> !IsLineTerminator(s[x]))
    && (forall i :: 0 <= i < n ==> SepAt(s, g.ends[i]))
    && (n > 0 ==> j < g.ends[0])
    && (forall i :: 0 < i < n ==> g.ends[i - 1] + |Sep| < g.ends[i])
    && (if n == 0 then j else g.ends[n - 1] + |Sep|) < g.tail.sevEnd
    && SepAt(s, g.tail.sevEnd)
    && AllDigits(s[(if n == 0 then j else g.ends[n - 1] + |Sep|)..g.tail.sevEnd])
    && g.tail.sevEnd + |Sep| < g.tail.discEnd
    && g.tail.discEnd + 2 * |Sep| <= |s|
    && ClosesAt(s, g.tail.discEnd)
  }

  /** n greedy `(.+)SEP` groups followed by the tail, at position j. */
  function GreedyAt(s: string, j: nat, n: nat): (r: Option<Groups>)
    requires j <= |s|
    decreases |s| - j, 1, 0
  {
    if n == 0 then
      match TailAt(s, j)
      case None => None
      case Some(t) => Some(Groups([], t))
    else GreedySearch(s, j, n, LineEnd(s, j))
  }

  /** Backtracking of a greedy `(.+)` group that starts at j: its end is
      tried from e downwards, and the first end at which a separator and the
      rest of the pattern match is taken. */
  function GreedySearch(s: string, j: nat, n: nat, e: nat): (r: Option<Groups>)
    requires j <= e <= |s| && n > 0
    decreases |s| - j, 0, e - j
  {
    if e == j then None
    else if SepAt(s, e) && GreedyAt(s, e + |Sep|, n - 1).Some? then
      var rest := GreedyAt(s, e + |Sep|, n - 1).value;
      Some(Groups([e] + rest.ends, rest.tail))
    else GreedySearch(s, j, n, e - 1)
  }

  /** What `GreedyAt` finds is a chain of groups that start at j. */
  lemma {:induction false} GreedyChained(s: string, j: nat, n: nat)
    requires j <= |s|
    ensures GreedyAt(s, j, n).Some? ==> Chained(s, j, n, GreedyAt(s, j, n).value)
    decreases |s| - j, 1, 0
  {
    if n > 0 {
      SearchChained(s, j, n, LineEnd(s, j));
    }
  }

  /** What `GreedySearch` finds is a chain of groups that start at j, the
      first of which ends at e or before. */
  lemma {:induction false} SearchChained(s: string, j: nat, n: nat, e: nat)
    requires j <= |s| && j <= e <= LineEnd(s, j) && n > 0
    ensures GreedySearch(s, j, n, e).Some? ==>
              Chained(s, j, n, GreedySearch(s, j, n, e).value) && GreedySearch(s, j, n, e).value.ends[0] <= e
    decreases |s| - j, 0, e - j
  {
    if e > j {
      if SepAt(s, e) && GreedyAt(s, e + |Sep|, n - 1).Some? {
        GreedyChained(s, e + |Sep|, n - 1);
        assert forall x :: j <= x < e ==> !IsLineTerminator(s[x]);
        ChainedCons(s, j, e, n, GreedyAt(s, e + |Sep|, n - 1).value);
      } else {
        SearchChained(s, j, n, e - 1);
      }
    }
  }

  /** A group that ends at a separator at e on its line, in front of a
      chain that starts after that separator, makes a chain one group longer. */
  lemma ChainedCons(s: string, j: nat, e: nat, n: nat, rest: Groups)
    requires j < e && n > 0 && SepAt(s, e) && Chained(s, e + |Sep|, n - 1, rest)
    requires forall x :: j <= x < e ==> !IsLineTerminator(s[x])
    ensures Chained(s, j, n, Groups([e] + rest.ends, rest.tail))
  {
    var ends := [e] + rest.ends;
    assert forall i :: 0 < i < n ==> ends[i] == rest.ends[i - 1];
    forall x | j <= x < ends[n - 1] && x < |s| ensures !IsLineTerminator(s[x]) {
      if e <= x < e + |Sep| {
        SepChar(s, e, x);
      }
    }
  }

  /** A separator holds no line terminator. */
  lemma SepChar(s: string, e: nat, x: nat)
    requires SepAt(s, e) && e <= x < e + |Sep|
    ensures !IsLineTerminator(s[x])
  {
    assert x - e in {0, 1, 2, 3, 4, 5, 6};
  }

  /** The seven capture groups of one match, as text. */
  datatype Captures = Captures(
    line: string,         // [1] %L
    column: string,       // [2] %c
    message: string,      // [3] %m
    explanation: string,  // [4] %e
    policy: string,       // [5] %p
    severity: string,     // [6] %s
    discussion: string)   // [7] %d

  /** The line, column and severity groups are `\d+` groups. */
  predicate NumericGroups(c: Captures) {
    && |c.line| > 0 && AllDigits(c.line)
    && |c.column| > 0 && AllDigits(c.column)
    && |c.severity| > 0 && AllDigits(c.severity)
  }

  /** A match: where it starts, where it ends, and its groups. */
  datatype RecordMatch = RecordMatch(start: nat, end: nat, groups: Captures)

  /** The text of a record with the groups c: the seven groups in the order
      of the pattern, joined by `:` and the separator sep, closed by two
      separators. */
  function RecordText(c: Captures, sep: string): string {
    c.line + ":" + c.column + sep + c.message + sep + c.explanation + sep + c.policy + sep
      + c.severity + sep + c.discussion + sep + sep
  }


  /** The text of the seven groups, once the head has matched at p with
      the line number ending at la and the column at the separator h, and
      the remaining groups end at the separators a, b, c, v and at the
      closing pair d. */
  function CapturesAt(s: string, p: nat, la: nat, h: nat, a: nat, b: nat, c: nat, v: nat, d: nat): (g: Captures)
    requires p < la < la + 1 < h && h + |Sep| < a && a + |Sep| < b && b + |Sep| < c && c + |Sep| < v && v + |Sep| < d <= |s|
    requires AllDigits(s[p..la]) && AllDigits(s[la + 1..h]) && AllDigits(s[c + |Sep|..v])
    ensures NumericGroups(g)
  {
    Captures(s[p..la], s[la + 1..h], s[h + |Sep|..a], s[a + |Sep|..b],
             s[b + |Sep|..c], s[c + |Sep|..v], s[v + |Sep|..d])
  }

  /** The pattern after its head: the line number has matched from p to
      la, the column up to the separator at h. */
  function MatchBody(s: string, p: nat, la: nat, h: nat): (r: Option<RecordMatch>)
    requires p < la < la + 1 < h && h + |Sep| <= |s|
    requires AllDigits(s[p..la]) && AllDigits(s[la + 1..h])
    ensures r.Some? ==> r.value.start == p < r.value.end <= |s|
    ensures r.Some? ==> NumericGroups(r.value.groups)
  {
    match GreedyAt(s, h + |Sep|, 3)
    case None => None
    case Some(g) =>
      GreedyChained(s, h + |Sep|, 3);
      var e := g.ends;
      var t := g.tail;
      Some(RecordMatch(p, t.discEnd + 2 * |Sep|, CapturesAt(s, p, la, h, e[0], e[1], e[2], t.sevEnd, t.discEnd)))
  }

  /** Where the head `(\d+):(\d+)SEP` ends its line number and where its
      separator starts. */
  datatype Head = Head(lineEnd: nat, sepAt: nat)

  /** The head of the pattern at position p. Each `\d+` takes the whole run
      of digits: the character after it (`:` or `~`) is not a digit, so no
      shorter run could be followed by it. */
  function HeadAt(s: string, p: nat): (r: Option<Head>)
    requires p <= |s|
    ensures r.Some? ==> p < r.value.lineEnd < r.value.lineEnd + 1 < r.value.sepAt
    ensures r.Some? ==> SepAt(s, r.value.sepAt) && s[r.value.lineEnd] == ':'
    ensures r.Some? ==> AllDigits(s[p..r.value.lineEnd]) && AllDigits(s[r.value.lineEnd + 1..r.value.sepAt])
  {
    var a := DigitRun(s, p);
    if a == 0 || p + a == |s| || s[p + a] != ':' then None
    else
      var b := DigitRun(s, p + a + 1);
      var h := p + a + 1 + b;
      if b == 0 || !SepAt(s, h) then None
      else Some(Head(p + a, h))
  }

  /** The whole pattern at position p: the head, then the body. */
  function MatchAt(s: string, p: nat): (r: Option<RecordMatch>)
    requires p <= |s|
    ensures r.Some? ==> r.value.start == p < r.value.end <= |s|
    ensures r.Some? ==> NumericGroups(r.value.groups)
  {
    match HeadAt(s, p)
    case None => None
    case Some(hd) => MatchBody(s, p, hd.lineEnd, hd.sepAt)
  }

  /** `regex.exec(result)` with `lastIndex` at `from`: the leftmost match
      that starts at or after `from`, or null. */
  function ExecFrom(s: string, from: nat): (r: Option<RecordMatch>)
    requires from <= |s|
    ensures r.Some? ==> from <= r.value.start < r.value.end <= |s|
    ensures r.Some? ==> NumericGroups(r.value.groups)
    ensures r.Some? ==> MatchAt(s, r.value.start) == r
    ensures r.Some? ==> forall q :: from <= q < r.value.start ==> MatchAt(s, q).None?
    ensures r.None? ==> forall q :: from <= q <= |s| ==> MatchAt(s, q).None?
    decreases |s| - from
  {
    var m := MatchAt(s, from);
    if m.Some? then m
    else if from == |s| then None
    else ExecFrom(s, from + 1)
  }

  /** The groups of every match the `exec` loop finds from `from` on: after
      each match, `lastIndex` moves to its end. */
  function AllMatches(s: string, from: nat): (cs: seq<Captures>)
    requires from <= |s|
    ensures forall i :: 0 <= i < |cs| ==> NumericGroups(cs[i])
    decreases |s| - from
  {
    match ExecFrom(s, from)
    case None => []
    case Some(m) => [m.groups] + AllMatches(s, m.end)
  }

  /** A slice of s from p that reads pre up to x reads pre and then
      s[x..y] up to y. */
  lemma Extend(s: string, p: nat, x: nat, y: nat, pre: string)
    requires p <= x <= y <= |s| && s[p..x] == pre
    ensures s[p..y] == pre + s[x..y]
  {
    assert s[p..y] == s[p..x] + s[x..y];
  }

  /** A separator at k is the text `Sep`. */
  lemma SepSlice(s: string, k: nat)
    requires SepAt(s, k)
    ensures k + |Sep| <= |s| && s[k..k + |Sep|] == Sep
  {
  }

  /** A field from x to y, then the separator q at y, after text pre. */
  lemma FieldSep(s: string, p: nat, x: nat, y: nat, pre: string, q: string)
    requires p <= x <= y && y + |q| <= |s| && s[y..y + |q|] == q && s[p..x] == pre
    ensures s[p..y + |q|] == pre + s[x..y] + q
  {
    Extend(s, p, x, y, pre);
    Extend(s, p, y, y + |q|, pre + s[x..y]);
  }

  /** The head, the brief description and the explanation of a match,
      with the separator q. */
  lemma JoinFront(s: string, p: nat, la: nat, h: nat, a: nat, b: nat, q: string)
    requires p < la < h && h + |q| < a && a + |q| < b && b + |q| <= |s|
    requires s[la..la + 1] == ":" && s[h..h + |q|] == q && s[a..a + |q|] == q && s[b..b + |q|] == q
    ensures s[p..b + |q|] == s[p..la] + ":" + s[la + 1..h] + q + s[h + |q|..a] + q + s[a + |q|..b] + q
  {
    var w := |q|;
    Extend(s, p, la, la + 1, s[p..la]);
    var t := s[p..la] + ":";
    FieldSep(s, p, la + 1, h, t, q);
    t := t + s[la + 1..h] + q;
    FieldSep(s, p, h + w, a, t, q);
    t := t + s[h + w..a] + q;
    FieldSep(s, p, a + w, b, t, q);
  }

  /** Two fields, each followed by the separator q, after text pre. */
  lemma JoinTwo(s: string, p: nat, x: nat, y: nat, z: nat, pre: string, q: string)
    requires p <= x <= y && y + |q| <= z && z + |q| <= |s| && s[p..x] == pre
    requires s[y..y + |q|] == q && s[z..z + |q|] == q
    ensures s[p..z + |q|] == pre + s[x..y] + q + s[y + |q|..z] + q
  {
    FieldSep(s, p, x, y, pre, q);
    FieldSep(s, p, y + |q|, z, pre + s[x..y] + q, q);
  }

  /** The last field, closed by the separator q twice, after text pre. */
  lemma JoinClose(s: string, p: nat, x: nat, d: nat, pre: string, q: string)
    requires p <= x <= d && d + 2 * |q| <= |s| && s[p..x] == pre
    requires s[d..d + |q|] == q && s[d + |q|..d + 2 * |q|] == q
    ensures s[p..d + 2 * |q|] == pre + s[x..d] + q + q
  {
    FieldSep(s, p, x, d, pre, q);
    Extend(s, p, d + |q|, d + 2 * |q|, pre + s[x..d] + q);
  }

  /** The policy name, the severity and the full discussion of a match,
      after the text pre of its front, with the separator q. */
  lemma JoinBack(s: string, p: nat, b: nat, c: nat, v: nat, d: nat, pre: string, q: string)
    requires p <= b && b + |q| < c && c + |q| < v && v + |q| < d && d + 2 * |q| <= |s|
    requires s[p..b + |q|] == pre
    requires s[c..c + |q|] == q && s[v..v + |q|] == q && s[d..d + |q|] == q && s[d + |q|..d + 2 * |q|] == q
    ensures s[p..d + 2 * |q|] == pre + s[b + |q|..c] + q + s[c + |q|..v] + q + s[v + |q|..d] + q + q
  {
    JoinTwo(s, p, b + |q|, c, v, pre, q);
    JoinClose(s, p, v + |q|, d, pre + s[b + |q|..c] + q + s[c + |q|..v] + q, q);
  }

  /** Joining the slices between the separators q of a match gives its
      text. */
  lemma JoinFields(s: string, p: nat, la: nat, h: nat, a: nat, b: nat, c: nat, v: nat, d: nat, q: string)
    requires p < la < h && h + |q| < a && a + |q| < b && b + |q| < c && c + |q| < v && v + |q| < d
    requires d + 2 * |q| <= |s|
    requires s[la..la + 1] == ":" && s[h..h + |q|] == q && s[a..a + |q|] == q && s[b..b + |q|] == q
    requires s[c..c + |q|] == q && s[v..v + |q|] == q && s[d..d + |q|] == q && s[d + |q|..d + 2 * |q|] == q
    ensures s[p..d + 2 * |q|] == RecordText(Captures(s[p..la], s[la + 1..h], s[h + |q|..a], s[a + |q|..b],
                                                      s[b + |q|..c], s[c + |q|..v], s[v + |q|..d]), q)
  {
    var w := |q|;
    JoinFront(s, p, la, h, a, b, q);
    JoinBack(s, p, b, c, v, d, s[p..la] + ":" + s[la + 1..h] + q + s[h + w..a] + q + s[a + w..b] + q, q);
  }

  /** The same, for the separator of the pattern. */
  lemma JoinSeps(s: string, p: nat, la: nat, h: nat, a: nat, b: nat, c: nat, v: nat, d: nat)
    requires p < la < h && h + |Sep| < a && a + |Sep| < b && b + |Sep| < c && c + |Sep| < v && v + |Sep| < d
    requires d + 2 * |Sep| <= |s|
    requires s[la..la + 1] == ":" && s[h..h + |Sep|] == Sep && s[a..a + |Sep|] == Sep && s[b..b + |Sep|] == Sep
    requires s[c..c + |Sep|] == Sep && s[v..v + |Sep|] == Sep && s[d..d + |Sep|] == Sep
    requires s[d + |Sep|..d + 2 * |Sep|] == Sep
    ensures s[p..d + 2 * |Sep|] == RecordText(Captures(s[p..la], s[la + 1..h], s[h + |Sep|..a], s[a + |Sep|..b],
                                                        s[b + |Sep|..c], s[c + |Sep|..v], s[v + |Sep|..d]), Sep)
  {
    JoinFields(s, p, la, h, a, b, c, v, d, Sep);
  }

  /** The same, from the separators and the colon that the match found. */
  lemma JoinRecord(s: string, p: nat, la: nat, h: nat, a: nat, b: nat, c: nat, v: nat, d: nat)
    requires p < la < h && h + |Sep| < a && a + |Sep| < b && b + |Sep| < c && c + |Sep| < v && v + |Sep| < d
    requires SepAt(s, h) && s[la] == ':'
    requires SepAt(s, a) && SepAt(s, b) && SepAt(s, c) && SepAt(s, v) && SepAt(s, d) && SepAt(s, d + |Sep|)
    ensures s[p..d + 2 * |Sep|] == RecordText(Captures(s[p..la], s[la + 1..h], s[h + |Sep|..a], s[a + |Sep|..b],
                                                        s[b + |Sep|..c], s[c + |Sep|..v], s[v + |Sep|..d]), Sep)
  {
    assert s[la..la + 1] == ":";
    SepSlice(s, h);
    SepSlice(s, a);
    SepSlice(s, b);
    SepSlice(s, c);
    SepSlice(s, v);
    SepSlice(s, d);
    SepSlice(s, d + |Sep|);
    JoinSeps(s, p, la, h, a, b, c, v, d);
  }

  /** A line terminator-free stretch of s has line terminator-free slices. */
  lemma NoBreakSlice(s: string, lo: nat, hi: nat, x: nat, y: nat)
    requires lo <= x <= y <= hi <= |s| && NoLineBreak(s[lo..hi])
    ensures NoLineBreak(s[x..y])
  {
    forall i | 0 <= i < y - x ensures !IsLineTerminator(s[x..y][i]) {
      assert s[x..y][i] == s[lo..hi][x - lo + i];
    }
  }

  /** The three greedy groups of a chain, as plain positions. */
  lemma ChainedParts(s: string, j: nat, g: Groups)
    requires Chained(s, j, 3, g)
    ensures |g.ends| == 3
    ensures j < g.ends[0] && g.ends[0] + |Sep| < g.ends[1] && g.ends[1] + |Sep| < g.ends[2]
    ensures g.ends[2] + |Sep| < g.tail.sevEnd && g.tail.sevEnd + |Sep| < g.tail.discEnd
    ensures g.tail.discEnd + 2 * |Sep| <= |s| && AllDigits(s[g.ends[2] + |Sep|..g.tail.sevEnd])
    ensures SepAt(s, g.ends[0]) && SepAt(s, g.ends[1]) && SepAt(s, g.ends[2])
    ensures SepAt(s, g.tail.sevEnd) && ClosesAt(s, g.tail.discEnd)
    ensures NoLineBreak(s[j..g.ends[2]])
  {
    assert 0 < 1 < 3 && 0 < 2 < 3;
    forall i | 0 <= i < g.ends[2] - j ensures !IsLineTerminator(s[j..g.ends[2]][i]) {
      assert s[j..g.ends[2]][i] == s[j + i];
    }
  }

  /** Where the three greedy groups and the tail that `GreedyAt` finds at
      j sit: separators at a, b, c, v and the closing pair at d. */
  lemma GreedyParts(s: string, j: nat) returns (a: nat, b: nat, c: nat, v: nat, d: nat)
    requires j <= |s| && GreedyAt(s, j, 3).Some?
    ensures GreedyAt(s, j, 3) == Some(Groups([a, b, c], Tail(v, d)))
    ensures j < a && a + |Sep| < b && b + |Sep| < c && c + |Sep| < v && v + |Sep| < d
    ensures d + 2 * |Sep| <= |s| && AllDigits(s[c + |Sep|..v])
    ensures SepAt(s, a) && SepAt(s, b) && SepAt(s, c) && SepAt(s, v) && ClosesAt(s, d)
    ensures NoLineBreak(s[j..c])
  {
    GreedyChained(s, j, 3);
    var g := GreedyAt(s, j, 3).value;
    ChainedParts(s, j, g);
    a, b, c := g.ends[0], g.ends[1], g.ends[2];
    v, d := g.tail.sevEnd, g.tail.discEnd;
    assert g.ends == [a, b, c];
  }

  /** Where the groups after the head sit: separators at a, b, c, v and
      the closing pair at d. */
  lemma BodyParts(s: string, p: nat, la: nat, h: nat) returns (a: nat, b: nat, c: nat, v: nat, d: nat)
    requires p < la < la + 1 < h && h + |Sep| <= |s|
    requires AllDigits(s[p..la]) && AllDigits(s[la + 1..h])
    requires MatchBody(s, p, la, h).Some?
    ensures h + |Sep| < a && a + |Sep| < b && b + |Sep| < c && c + |Sep| < v && v + |Sep| < d
    ensures d + 2 * |Sep| <= |s| && AllDigits(s[c + |Sep|..v])
    ensures SepAt(s, a) && SepAt(s, b) && SepAt(s, c) && SepAt(s, v) && ClosesAt(s, d)
    ensures NoLineBreak(s[h + |Sep|..c])
    ensures MatchBody(s, p, la, h) == Some(RecordMatch(p, d + 2 * |Sep|, CapturesAt(s, p, la, h, a, b, c, v, d)))
  {
    a, b, c, v, d := GreedyParts(s, h + |Sep|);
  }

  /** Where the head of a match ends its line number and its column. */
  lemma HeadParts(s: string, p: nat) returns (la: nat, h: nat)
    requires p <= |s| && MatchAt(s, p).Some?
    ensures p < la < la + 1 < h && h + |Sep| <= |s| && SepAt(s, h) && s[la] == ':'
    ensures AllDigits(s[p..la]) && AllDigits(s[la + 1..h])
    ensures MatchBody(s, p, la, h).Some? && MatchAt(s, p) == MatchBody(s, p, la, h)
  {
    var hd := HeadAt(s, p).value;
    la, h := hd.lineEnd, hd.sepAt;
  }

  /** Where the parts of a match sit: the colon at la, the separators at
      h, a, b, c, v and the closing pair at d. */
  lemma MatchParts(s: string, p: nat) returns (la: nat, h: nat, a: nat, b: nat, c: nat, v: nat, d: nat)
    requires p <= |s| && MatchAt(s, p).Some?
    ensures p < la < la + 1 < h && h + |Sep| < a && a + |Sep| < b && b + |Sep| < c && c + |Sep| < v && v + |Sep| < d
    ensures d + 2 * |Sep| <= |s|
    ensures AllDigits(s[p..la]) && AllDigits(s[la + 1..h]) && AllDigits(s[c + |Sep|..v])
    ensures SepAt(s, h) && s[la] == ':'
    ensures SepAt(s, a) && SepAt(s, b) && SepAt(s, c) && SepAt(s, v) && ClosesAt(s, d)
    ensures NoLineBreak(s[h + |Sep|..c])
    ensures MatchAt(s, p) == Some(RecordMatch(p, d + 2 * |Sep|, CapturesAt(s, p, la, h, a, b, c, v, d)))
  {
    la, h := HeadParts(s, p);
    a, b, c, v, d := BodyParts(s, p, la, h);
  }

  /** The text from p to the closing pair at d, with the parts placed as
      `MatchParts` places them, is an instance of the pattern. */
  lemma InstanceAt(s: string, p: nat, la: nat, h: nat, a: nat, b: nat, c: nat, v: nat, d: nat)
    requires p < la < la + 1 < h && h + |Sep| < a && a + |Sep| < b && b + |Sep| < c && c + |Sep| < v && v + |Sep| < d
    requires d + 2 * |Sep| <= |s|
    requires AllDigits(s[p..la]) && AllDigits(s[la + 1..h]) && AllDigits(s[c + |Sep|..v])
    requires SepAt(s, h) && s[la] == ':'
    requires SepAt(s, a) && SepAt(s, b) && SepAt(s, c) && SepAt(s, v) && ClosesAt(s, d)
    requires NoLineBreak(s[h + |Sep|..c])
    ensures var g := CapturesAt(s, p, la, h, a, b, c, v, d);
            && s[p..d + 2 * |Sep|] == RecordText(g, Sep)
            && |g.message| > 0 && |g.explanation| > 0 && |g.policy| > 0 && |g.discussion| > 0
            && NoLineBreak(g.message) && NoLineBreak(g.explanation) && NoLineBreak(g.policy)
  {
    var w := |Sep|;
    JoinRecord(s, p, la, h, a, b, c, v, d);
    NoBreakSlice(s, h + w, c, h + w, a);
    NoBreakSlice(s, h + w, c, a + w, b);
    NoBreakSlice(s, h + w, c, b + w, c);
  }

  /** Whatever text a match is found in, it is an instance of the pattern:
      the text it spans is its seven groups joined by `:` and separators and
      closed by two separators at the end of a line; the line, column and
      severity are digits; every group is non-empty; and the brief
      description, explanation and policy name lie on one line. */
  lemma MatchIsInstance(s: string, p: nat)
    requires p <= |s| && MatchAt(s, p).Some?
    ensures var m := MatchAt(s, p).value;
            && s[p..m.end] == RecordText(m.groups, Sep)
            && EndsLineAt(s, m.end)
            && NumericGroups(m.groups)
            && |m.groups.message| > 0 && |m.groups.explanation| > 0
            && |m.groups.policy| > 0 && |m.groups.discussion| > 0
            && NoLineBreak(m.groups.message) && NoLineBreak(m.groups.explanation) && NoLineBreak(m.groups.policy)
  {
    var la, h, a, b, c, v, d := MatchParts(s, p);
    InstanceAt(s, p, la, h, a, b, c, v, d);
  }
}
