/** On perlcritic's whole output for a list of well-formed violations, the
    `exec` loop of lib/init.js:179-198 finds one match per violation, in
    order, and `lint` pushes the message that violation stands for. */
module DecodeOutput {
  import opened Wrappers
  import opened OutputFormat
  import opened RecordPattern
  import opened Diagnostics
  import opened RecordEncoding
  import opened RoundTrip

  /** No match starts at the end of the text or at a character that is not
      a digit: the pattern opens with `\d+`. */
  lemma NoMatchAt(s: string, p: nat)
    requires p == |s| || (p < |s| && !IsDigit(s[p]))
    ensures MatchAt(s, p) == None
  {
    assert DigitRun(s, p) == 0;
  }

  /** `exec` from a position where no match starts finds what it finds from
      the next one. */
  lemma SkipNonDigit(s: string, p: nat)
    requires p < |s| && !IsDigit(s[p])
    ensures AllMatches(s, p) == AllMatches(s, p + 1)
  {
    NoMatchAt(s, p);
  }

  /** Every record ends with a newline. */
  lemma RenderEndsWithNewline(v: Violation)
    ensures |Render(v)| > 0 && Render(v)[|Render(v)| - 1] == '\n'
  {
  }

  /** From the start of the records of vs, the loop collects the groups of
      each record in turn, and nothing else. */
  lemma {:induction false} OutputMatchesFrom(s: string, k: nat, vs: seq<Violation>)
    requires k <= |s| && s[k..] == Output(vs)
    requires forall i :: 0 <= i < |vs| ==> WellFormed(vs[i])
    ensures AllMatches(s, k) == CapturesAll(vs)
    decreases |vs|
  {
    if vs == [] {
      assert |s[k..]| == 0;
      NoMatchAt(s, k);
    } else {
      var rest := vs[1..];
      var e := NextRecord(s, k, vs[0], Output(rest));
      assert forall i :: 0 <= i < |rest| ==> WellFormed(rest[i]) by {
        forall i | 0 <= i < |rest| ensures WellFormed(rest[i]) {
          assert rest[i] == vs[i + 1];
        }
      }
      OutputMatchesFrom(s, e, rest);
      assert CapturesAll(vs) == [CapturesOf(vs[0])] + CapturesAll(rest);
    }
  }

  /** A record at k is one match, after which the loop goes on from the
      text that follows the record's newline. */
  lemma NextRecord(s: string, k: nat, v: Violation, t: string) returns (e: nat)
    requires k <= |s| && s[k..] == Render(v) + t && WellFormed(v)
    ensures e == k + |Render(v)| <= |s| && s[e..] == t
    ensures AllMatches(s, k) == [CapturesOf(v)] + AllMatches(s, e)
  {
    var r := Render(v);
    e := k + |r|;
    assert s[k..e] == (r + t)[..|r|];
    assert s[e..] == (r + t)[|r|..];
    RecordMatches(s, v, k);
    RenderEndsWithNewline(v);
    assert s[e - 1] == (r + t)[|r| - 1];
    SkipNonDigit(s, e - 1);
  }

  /** Round trip: the decoder reads back, in order, the fields of every
      violation perlcritic prints with the format of lib/init.js:66. */
  lemma OutputMatches(vs: seq<Violation>)
    requires forall i :: 0 <= i < |vs| ==> WellFormed(vs[i])
    ensures AllMatches(Output(vs), 0) == CapturesAll(vs)
  {
    var s := Output(vs);
    assert s[0..] == s;
    OutputMatchesFrom(s, 0, vs);
  }

  /** The message the editor is to show for violation v: at its 0-based
      position, described by its discussion, with the excerpt built from
      its brief description, its severity and its explanation. */
  function ViolationMessage(v: Violation, level: string): Message {
    Message(level, Excerpt(v.message, NatStr(v.severity), v.explanation),
            ZeroBased(v.line), ZeroBased(v.column), v.discussion)
  }

  /** The groups of a violation become its message. */
  lemma CapturesMessage(v: Violation, level: string)
    ensures ToMessage(CapturesOf(v), level) == ViolationMessage(v, level)
  {
    NatStrValue(v.line);
    NatStrValue(v.column);
  }

  /** What `lint` pushes for perlcritic's output on a list of well-formed
      violations: one message per violation, in order, at its position less
      one and never below zero, with the configured level as severity. */
  lemma OutputMessages(vs: seq<Violation>, level: string)
    requires forall i :: 0 <= i < |vs| ==> WellFormed(vs[i])
    ensures |MessagesOf(Output(vs), level)| == |vs|
    ensures forall i :: 0 <= i < |vs| ==> MessagesOf(Output(vs), level)[i] == ViolationMessage(vs[i], level)
  {
    OutputMatches(vs);
    var cs := CapturesAll(vs);
    forall i | 0 <= i < |vs|
      ensures MessagesOf(Output(vs), level)[i] == ViolationMessage(vs[i], level)
    {
      CapturesMessage(vs[i], level);
    }
  }

  /** Output in which no position starts with digits, a colon, digits and
      the separator gives the empty list of messages, not null. */
  lemma NoHeadNoMessages(s: string, level: string)
    requires forall p :: 0 <= p <= |s| ==> HeadAt(s, p).None?
    ensures MessagesOf(s, level) == []
  {
    forall p | 0 <= p <= |s| ensures MatchAt(s, p).None? {
      assert HeadAt(s, p).None?;
    }
  }

  /** A head at p holds a separator after p. */
  lemma HeadHasSep(s: string, p: nat)
    requires p <= |s|
    ensures HeadAt(s, p).None? || exists k :: p < k < |s| && SepAt(s, k)
  {
    if HeadAt(s, p).Some? {
      var k := HeadAt(s, p).value.sepAt;
      assert p < k < |s| && SepAt(s, k);
    }
  }

  /** In particular, output without the separator, such as the one-line
      report perlcritic prints when it finds nothing, gives no messages. */
  lemma NoSeparatorNoMessages(s: string, level: string)
    requires forall p :: 0 <= p < |s| ==> !SepAt(s, p)
    ensures MessagesOf(s, level) == []
  {
    forall p | 0 <= p <= |s| ensures HeadAt(s, p).None? {
      HeadHasSep(s, p);
    }
    NoHeadNoMessages(s, level);
  }
}
