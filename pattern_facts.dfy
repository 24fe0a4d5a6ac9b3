/** How the record pattern behaves on a line whose separators sit at known
    places. `Layout` states the facts about such a line that the
    backtracking needs; the lemmas here derive from them which ends the
    greedy groups take and that no other choice succeeds. */
module PatternFacts {
  import opened Wrappers
  import opened OutputFormat
  import opened RecordPattern

  /** No separator starts strictly between lo and hi. */
  ghost predicate NoSepIn(s: string, lo: nat, hi: nat) {
    forall e :: lo < e < hi ==> !SepAt(s, e)
  }

  /** No separator in (lo, hi] is followed by a match of m greedy groups
      and the tail: no end of a greedy group there lets the rest match. */
  ghost predicate NoEndIn(s: string, lo: nat, hi: nat, m: nat) {
    forall k :: lo + |Sep| < k <= hi + |Sep| && SepAt(s, k - |Sep|) ==> GreedyAt(s, k, m).None?
  }

  /** Where the separators of one printed record sit: S[0] after the
      column, S[1], S[2] and S[3] after the message, explanation and
      policy, S[4] after the severity, S[5] before the doubled separator
      after the discussion. The line that holds the message ends at E.
      Separators before S[1] do not matter, since each greedy group takes
      the last end that works; after S[1] none may start inside a field. */
  ghost predicate Layout(s: string, S: seq<nat>, E: nat) {
    && |S| == 6
    && E <= |s| && EndsLineAt(s, E)
    && SepAt(s, S[0]) && SepAt(s, S[1]) && SepAt(s, S[2]) && SepAt(s, S[3])
    && S[0] + |Sep| < S[1] && S[1] + |Sep| < S[2] && S[2] + |Sep| < S[3] && S[3] + |Sep| < S[4]
    && S[4] + |Sep| <= E
    && (forall j :: S[0] <= j <= E ==> LineEnd(s, j) == E)
    && NoSepIn(s, S[1], S[2]) && NoSepIn(s, S[2], S[3]) && NoSepIn(s, S[3], S[4])
    && TailAt(s, S[3] + |Sep|) == Some(Tail(S[4], S[5]))
    && (forall k :: S[4] + |Sep| <= k <= E + |Sep| && SepAt(s, k - |Sep|) ==> TailAt(s, k).None?)
  }

  /** A separator never contains a line terminator, so one that starts
      before the end of a line also ends before it. */
  lemma SepBeforeLineEnd(s: string, e: nat, E: nat)
    requires SepAt(s, e) && e <= E <= |s| && EndsLineAt(s, E)
    ensures e + |Sep| <= E
  {
    assert forall i :: e <= i < e + |Sep| ==> s[i] == Sep[i - e];
  }

  /** A separator on the line after S[k] comes at S[k + 1] or later. */
  lemma SepAfter(s: string, S: seq<nat>, E: nat, k: nat, e: nat)
    requires Layout(s, S, E) && 0 < k < 4 && S[k] < e <= E && SepAt(s, e)
    ensures S[k + 1] <= e
  {
    assert NoSepIn(s, S[k], S[k + 1]);
  }

  /** The backtracking of a greedy group finds nothing when no end in
      (j, e] lets the rest of the pattern match. */
  lemma {:induction false} SearchNone(s: string, j: nat, n: nat, e: nat)
    requires j <= e <= |s| && n > 0
    requires NoEndIn(s, j, e, n - 1)
    ensures GreedySearch(s, j, n, e).None?
    decreases e - j
  {
    if e > j {
      SearchNone(s, j, n, e - 1);
    }
  }

  /** The backtracking of a greedy group takes the largest end t in (j, e]
      at which the rest of the pattern matches. */
  lemma {:induction false} SearchFinds(s: string, j: nat, n: nat, e: nat, t: nat)
    requires j < t <= e <= |s| && n > 0
    requires SepAt(s, t) && GreedyAt(s, t + |Sep|, n - 1).Some?
    requires NoEndIn(s, t, e, n - 1)
    ensures GreedySearch(s, j, n, e)
         == Some(Groups([t] + GreedyAt(s, t + |Sep|, n - 1).value.ends, GreedyAt(s, t + |Sep|, n - 1).value.tail))
    decreases e - t
  {
    if e > t {
      SearchFinds(s, j, n, e - 1, t);
    }
  }

  /** Starting after a separator at or after S[4 - n], the last n greedy
      groups and the tail cannot match on the line. */
  lemma {:induction false} GroupsFail(s: string, S: seq<nat>, E: nat, n: nat, e: nat)
    requires Layout(s, S, E) && n <= 3 && SepAt(s, e) && S[4 - n] <= e <= E
    ensures GreedyAt(s, e + |Sep|, n).None?
    decreases n, 3
  {
    if n == 0 {
      TailFails(s, S, E, e);
    } else {
      SepOnLine(s, S, E, n, e);
      GreedyGroupsFail(s, S, E, n, e);
    }
  }

  /** The case of at least one greedy group: no end on the line works for it. */
  lemma {:induction false} GreedyGroupsFail(s: string, S: seq<nat>, E: nat, n: nat, e: nat)
    requires Layout(s, S, E) && 0 < n <= 3 && S[4 - n] <= e
    requires e + |Sep| <= E && LineEnd(s, e + |Sep|) == E
    ensures GreedyAt(s, e + |Sep|, n).None?
    decreases n, 2
  {
    assert E <= |s|;
    LaterEndsFail(s, S, E, n, n - 1, e + |Sep|);
    GreedyNone(s, e + |Sep|, n, E);
  }

  /** After a separator at or after S[4] on the line, the tail cannot match. */
  lemma TailFails(s: string, S: seq<nat>, E: nat, e: nat)
    requires Layout(s, S, E) && SepAt(s, e) && S[4] <= e <= E
    ensures GreedyAt(s, e + |Sep|, 0).None?
  {
    assert TailAt(s, e + |Sep|).None?;
  }

  /** A separator on the line ends on the line too, and the text after it
      belongs to the same line. */
  lemma SepOnLine(s: string, S: seq<nat>, E: nat, n: nat, e: nat)
    requires Layout(s, S, E) && n <= 3 && SepAt(s, e) && S[4 - n] <= e <= E
    ensures e + |Sep| <= E && LineEnd(s, e + |Sep|) == E
  {
    assert S[0] <= e by {
      if n == 0 { assert 4 - n == 4; }
      else if n == 1 { assert 4 - n == 3; }
      else if n == 2 { assert 4 - n == 2; }
      else { assert 4 - n == 1; }
    }
    SepBeforeLineEnd(s, e, E);
  }

  /** A greedy group that starts on the line ending at E finds nothing when
      no end on that line lets the rest match. */
  lemma GreedyNone(s: string, j: nat, n: nat, E: nat)
    requires j <= E <= |s| && 0 < n && LineEnd(s, j) == E
    requires NoEndIn(s, j, E, n - 1)
    ensures GreedyAt(s, j, n).None?
  {
    SearchNone(s, j, n, E);
  }

  /** No end of a greedy group after a separator at or after S[4 - n] lets
      the remaining n - 1 greedy groups and the tail match. */
  lemma {:induction false} LaterEndsFail(s: string, S: seq<nat>, E: nat, n: nat, m: nat, e: nat)
    requires Layout(s, S, E) && 0 < n <= 3 && m + 1 == n && S[4 - n] <= e
    ensures NoEndIn(s, e, E, m)
    decreases n, 1
  {
    forall k | e + |Sep| < k <= E + |Sep| && SepAt(s, k - |Sep|)
      ensures GreedyAt(s, k, m).None?
    {
      EndFails(s, S, E, n, m, e, k);
    }
  }

  /** One such end: the group ending at the separator before k. */
  lemma {:induction false} EndFails(s: string, S: seq<nat>, E: nat, n: nat, m: nat, e: nat, k: nat)
    requires Layout(s, S, E) && 0 < n <= 3 && m + 1 == n && S[4 - n] <= e
    requires e + |Sep| < k <= E + |Sep| && SepAt(s, k - |Sep|)
    ensures GreedyAt(s, k, m).None?
    decreases n, 0
  {
    var x := k - |Sep|;
    SepAfter(s, S, E, 4 - n, x);
    GroupsFail(s, S, E, m, x);
    assert x + |Sep| == k;
  }

  /** What the greedy search needs to know about a line on which three
      greedy groups start at j and end at a, b and c, followed by the tail:
      each group ends before the line does, and no later end on the line
      lets the rest of the pattern match. */
  ghost predicate GreedyLine(s: string, E: nat, j: nat, a: nat, b: nat, c: nat, tail: Tail) {
    && E <= |s| && j < a && a + |Sep| < b && b + |Sep| < c && c <= E
    && SepAt(s, a) && SepAt(s, b) && SepAt(s, c)
    && LineEnd(s, j) == E && LineEnd(s, a + |Sep|) == E && LineEnd(s, b + |Sep|) == E
    && TailAt(s, c + |Sep|) == Some(tail)
    && NoEndIn(s, c, E, 0) && NoEndIn(s, b, E, 1) && NoEndIn(s, a, E, 2)
  }

  /** A record laid out as `Layout` says is such a line, its groups ending
      at S[1], S[2] and S[3]. */
  lemma LayoutLine(s: string, S: seq<nat>, E: nat)
    requires Layout(s, S, E)
    ensures GreedyLine(s, E, S[0] + |Sep|, S[1], S[2], S[3], Tail(S[4], S[5]))
  {
    LayoutStep(s, S, E, 1, S[2] + |Sep|, S[3]);
    LayoutStep(s, S, E, 2, S[1] + |Sep|, S[2]);
    LayoutStep(s, S, E, 3, S[0] + |Sep|, S[1]);
  }

  /** Three greedy groups, each ending at the largest end on the line at
      which the rest matches, chain into one result. */
  lemma ChainGroups(s: string, E: nat, j: nat, a: nat, b: nat, c: nat, tail: Tail)
    requires GreedyLine(s, E, j, a, b, c, tail)
    ensures GreedyAt(s, j, 3) == Some(Groups([a, b, c], tail))
    ensures j < a && c + |Sep| < tail.sevEnd
    ensures tail.sevEnd + |Sep| < tail.discEnd && tail.discEnd + 2 * |Sep| <= |s|
  {
    ChainTwo(s, E, a, b, c, tail);
    GreedyStep(s, j, 2, E, a, [b, c], tail);
    assert [a] + [b, c] == [a, b, c];
  }

  /** The last two greedy groups, from the end of the first one. */
  lemma ChainTwo(s: string, E: nat, a: nat, b: nat, c: nat, tail: Tail)
    requires E <= |s| && a + |Sep| < b && b + |Sep| < c && c <= E
    requires SepAt(s, b) && SepAt(s, c)
    requires LineEnd(s, a + |Sep|) == E && LineEnd(s, b + |Sep|) == E
    requires TailAt(s, c + |Sep|) == Some(tail)
    requires NoEndIn(s, c, E, 0) && NoEndIn(s, b, E, 1)
    ensures GreedyAt(s, a + |Sep|, 2) == Some(Groups([b, c], tail))
  {
    ChainOne(s, E, b, c, tail);
    GreedyStep(s, a + |Sep|, 1, E, b, [c], tail);
    assert [b] + [c] == [b, c];
  }

  /** The last greedy group, from the end of the second one. */
  lemma ChainOne(s: string, E: nat, b: nat, c: nat, tail: Tail)
    requires E <= |s| && b + |Sep| < c && c <= E && SepAt(s, c)
    requires LineEnd(s, b + |Sep|) == E
    requires TailAt(s, c + |Sep|) == Some(tail)
    requires NoEndIn(s, c, E, 0)
    ensures GreedyAt(s, b + |Sep|, 1) == Some(Groups([c], tail))
  {
    TailGroups(s, c + |Sep|, tail);
    GreedyStep(s, b + |Sep|, 0, E, c, [], tail);
    assert [c] + [] == [c];
  }

  /** No greedy group is left: what matches is the tail alone. */
  lemma TailGroups(s: string, k: nat, tail: Tail)
    requires k <= |s| && TailAt(s, k) == Some(tail)
    ensures GreedyAt(s, k, 0) == Some(Groups([], tail))
  {
  }

  /** What the layout says about the group that ends at S[4 - n]: it starts
      on the line that ends at E, and no later end lets the rest match. */
  lemma LayoutStep(s: string, S: seq<nat>, E: nat, n: nat, j: nat, t: nat)
    requires Layout(s, S, E) && 0 < n <= 3
    requires j == S[3 - n] + |Sep| && t == S[4 - n]
    ensures j < t <= E <= |s| && LineEnd(s, j) == E && SepAt(s, t)
    ensures NoEndIn(s, t, E, n - 1)
  {
    LaterEndsFail(s, S, E, n, n - 1, t);
  }

  /** One more greedy group in front of groups that match after t: it ends
      at t when t is the largest end on the line at which the rest matches. */
  lemma GreedyStep(s: string, j: nat, m: nat, E: nat, t: nat, ends: seq<nat>, tail: Tail)
    requires j < t <= E <= |s| && LineEnd(s, j) == E
    requires SepAt(s, t) && GreedyAt(s, t + |Sep|, m) == Some(Groups(ends, tail))
    requires NoEndIn(s, t, E, m)
    ensures GreedyAt(s, j, m + 1) == Some(Groups([t] + ends, tail))
  {
    SearchFinds(s, j, m + 1, E, t);
  }

  /** The head `digits:digits` at p, the line number ending at la and the
      column at the separator at h. */
  lemma HeadIs(s: string, p: nat, la: nat, h: nat)
    requires p < la < la + 1 < h && SepAt(s, h)
    requires DigitRun(s, p) == la - p && s[la] == ':'
    requires DigitRun(s, la + 1) == h - la - 1
    ensures HeadAt(s, p) == Some(Head(la, h))
  {
  }

  /** Once the head has matched, the whole pattern matches when its body does. */
  lemma RecordMatchAt(s: string, p: nat, la: nat, h: nat)
    requires p <= |s| && HeadAt(s, p) == Some(Head(la, h))
    ensures MatchAt(s, p) == MatchBody(s, p, la, h)
  {
  }

  /** The body of the pattern after the head, on such a line. */
  lemma BodyMatch(s: string, p: nat, la: nat, h: nat, a: nat, b: nat, c: nat, tail: Tail)
    requires p < la < la + 1 < h && SepAt(s, h)
    requires AllDigits(s[p..la]) && AllDigits(s[la + 1..h])
    requires GreedyAt(s, h + |Sep|, 3) == Some(Groups([a, b, c], tail))
    requires h + |Sep| < a && a + |Sep| < b && b + |Sep| < c && c + |Sep| < tail.sevEnd
    requires tail.sevEnd + |Sep| < tail.discEnd && tail.discEnd + 2 * |Sep| <= |s|
    ensures MatchBody(s, p, la, h) == Some(RecordMatch(p, tail.discEnd + 2 * |Sep|, Captures(
              s[p..la], s[la + 1..h],
              s[h + |Sep|..a], s[a + |Sep|..b], s[b + |Sep|..c],
              s[c + |Sep|..tail.sevEnd], s[tail.sevEnd + |Sep|..tail.discEnd])))
  {
  }

  /** `$` holds at k and nowhere on the line before it: the line from j ends at k. */
  lemma {:induction false} LineEndIs(s: string, j: nat, k: nat)
    requires j <= k <= |s| && EndsLineAt(s, k)
    requires forall i {:trigger IsLineTerminator(s[i])} :: j <= i < k ==> !IsLineTerminator(s[i])
    ensures LineEnd(s, j) == k
    decreases k - j
  {
    if j < k {
      LineEndIs(s, j + 1, k);
    }
  }

  /** The lazy group stops at the first doubled separator at the end of a
      line, past any separator that is not one. */
  lemma {:induction false} LazyFinds(s: string, from: nat, t: nat)
    requires from <= t && t + 2 * |Sep| <= |s|
    requires SepAt(s, t) && SepAt(s, t + |Sep|) && EndsLineAt(s, t + 2 * |Sep|)
    requires forall x :: from <= x < t ==> !(SepAt(s, x) && SepAt(s, x + |Sep|) && EndsLineAt(s, x + 2 * |Sep|))
    ensures LazyEnd(s, from) == Some(t)
    decreases t - from
  {
    if from < t {
      LazyFinds(s, from + 1, t);
    }
  }

  /** A lone separator inside the discussion does not end it: the lazy
      group runs on to the doubled separator at the end of the text. */
  lemma LazySkipsLoneSeparator()
    ensures LazyEnd("a~~lpc~~b~~lpc~~~~lpc~~", 0) == Some(9)
  {
    var s := "a~~lpc~~b~~lpc~~~~lpc~~";
    forall x | 0 <= x < 9 ensures !(SepAt(s, x) && SepAt(s, x + |Sep|) && EndsLineAt(s, x + 2 * |Sep|)) {
      assert s[x] != '~' || s[x + 1] != '~' || s[x + 2] != 'l' || s[x + 7] != '~';
    }
    LazyFinds(s, 0, 9);
  }

  /** Nor does a doubled separator that is followed by more text on its
      line. */
  lemma LazySkipsInnerPair()
    ensures LazyEnd("~~lpc~~~~lpc~~b~~lpc~~~~lpc~~", 0) == Some(15)
  {
    var s := "~~lpc~~~~lpc~~b~~lpc~~~~lpc~~";
    forall x | 0 <= x < 15 ensures !(SepAt(s, x) && SepAt(s, x + |Sep|) && EndsLineAt(s, x + 2 * |Sep|)) {
      if x == 0 {
        assert !EndsLineAt(s, 14);
      } else {
        assert s[x] != '~' || s[x + 1] != '~' || s[x + 2] != 'l' || s[x + 7] != '~' || s[x + 8] != '~' || s[x + 9] != 'l';
      }
    }
    LazyFinds(s, 0, 15);
  }

  /** A run of exactly n digits starts at k. */
  lemma {:induction false} DigitRunIs(s: string, k: nat, n: nat)
    requires k + n <= |s|
    requires forall i {:trigger IsDigit(s[i])} :: k <= i < k + n ==> IsDigit(s[i])
    requires k + n == |s| || !IsDigit(s[k + n])
    ensures DigitRun(s, k) == n
    decreases n
  {
    if n > 0 {
      DigitRunIs(s, k + 1, n - 1);
    }
  }

  /** A character that differs from the separator's rules out a separator there. */
  lemma NotSepAt(s: string, e: nat, k: nat)
    requires k < |Sep| && e + k < |s| && s[e + k] != Sep[k]
    ensures !SepAt(s, e)
  {
    if e + |Sep| <= |s| {
      assert s[e..e + |Sep|][k] == s[e + k];
    }
  }

  /** No separator starts inside the separator at a when the field after it
      has no `~` and is not `lpc`. */
  lemma NoSepInsideSep(s: string, a: nat, b: nat, e: nat)
    requires SepAt(s, a) && SepAt(s, b) && a + |Sep| <= b
    requires forall x :: a + |Sep| <= x < b ==> s[x] != '~'
    requires s[a + |Sep|..b] != "lpc"
    requires a < e < a + |Sep|
    ensures !SepAt(s, e)
  {
    assert s[a..a + |Sep|] == Sep;
    assert s[b..b + |Sep|] == Sep;
    if e < a + 5 {
      if e == a + 1 { NotSepAt(s, e, 1); }
      else { assert s[e] == Sep[e - a]; NotSepAt(s, e, 0); }
    } else if e == a + 5 {
      if b < a + 10 {
        assert s[b] == '~';
        NotSepAt(s, e, b - e);
      } else if b == a + 10 {
        assert exists i :: 0 <= i < 3 && s[a + |Sep|..b][i] != "lpc"[i];
        var i :| 0 <= i < 3 && s[a + |Sep|..b][i] != "lpc"[i];
        NotSepAt(s, e, i + 2);
      } else {
        NotSepAt(s, e, 5);
      }
    } else {
      if b == a + 7 {
        assert s[b + 1] == '~';
        NotSepAt(s, e, 2);
      } else {
        NotSepAt(s, e, 1);
      }
    }
  }

  /** Between two separators with a field between them that has no `~`
      and is not `lpc`, no other separator starts. */
  lemma NoSepBetween(s: string, a: nat, b: nat)
    requires SepAt(s, a) && SepAt(s, b) && a + |Sep| <= b
    requires forall x :: a + |Sep| <= x < b ==> s[x] != '~'
    requires s[a + |Sep|..b] != "lpc"
    ensures NoSepIn(s, a, b)
  {
    forall e | a < e < b ensures !SepAt(s, e) {
      if e < a + |Sep| {
        NoSepInsideSep(s, a, b, e);
      } else {
        NotSepAt(s, e, 0);
      }
    }
  }
}
