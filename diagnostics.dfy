/** The record decoding inside `lint` (lib/init.js:179-198): every match of
    the record pattern becomes one message, in the order the matches occur
    in perlcritic's output. */
module Diagnostics {
  import opened Wrappers
  import opened RecordPattern

  /** The value of a decimal digit character. */
  function DigitValue(c: char): (v: nat)
    requires IsDigit(c)
    ensures v < 10
  {
    (c - '0') as nat
  }

  /** `Number.parseInt(ds, 10)` of a string of decimal digits. */
  function DecimalValue(ds: string): (n: nat)
    requires AllDigits(ds)
  {
    if ds == [] then 0
    else DecimalValue(ds[..|ds| - 1]) * 10 + DigitValue(ds[|ds| - 1])
  }

  /** The 1-based number perlcritic prints, as the 0-based number the editor
      uses: one less, and never below zero (`Math.max(n - 1, 0)`). */
  function ZeroBased(n: int): (z: nat)
    ensures n >= 1 ==> z + 1 == n
    ensures n < 1 ==> z == 0
  {
    if n - 1 > 0 then n - 1 else 0
  }

  /** The text the editor shows: the brief description, the severity number
      perlcritic printed and the explanation (lib/init.js:187). */
  function Excerpt(message: string, severity: string, explanation: string): string {
    message + " (Severity " + severity + ") [" + explanation + ".]"
  }

  /** The excerpt of the strictures violation perlcritic reports first for
      the package's test file. */
  lemma ExcerptExample()
    ensures Excerpt("Code before strictures are enabled", "5", "See page 429 of PBP")
            == "Code before strictures are enabled (Severity 5) [See page 429 of PBP.]"
  {
  }

  /** The message object pushed for one match (lib/init.js:185-193): the
      severity is the configured level, the position is the 0-based line
      and column, the description is the full discussion. The policy group
      is not used. The file path and the range that `generateRange` builds
      from the position are not part of this model. */
  datatype Message = Message(severity: string, excerpt: string, line: nat, column: nat, description: string)

  /** The message one match becomes. */
  function ToMessage(c: Captures, level: string): Message
    requires NumericGroups(c)
  {
    Message(level, Excerpt(c.message, c.severity, c.explanation),
            ZeroBased(DecimalValue(c.line)), ZeroBased(DecimalValue(c.column)), c.discussion)
  }

  /** The messages of a list of matches, in order. */
  function ToMessages(cs: seq<Captures>, level: string): (ms: seq<Message>)
    requires forall i :: 0 <= i < |cs| ==> NumericGroups(cs[i])
    ensures |ms| == |cs|
    ensures forall i :: 0 <= i < |cs| ==> ms[i] == ToMessage(cs[i], level)
  {
    if cs == [] then [] else [ToMessage(cs[0], level)] + ToMessages(cs[1..], level)
  }

  /** The messages `lint` returns for perlcritic's output `result`. */
  function MessagesOf(result: string, level: string): seq<Message> {
    ToMessages(AllMatches(result, 0), level)
  }

  /** What is left for the loop once `match` holds the result of the last
      `exec`: that match, then every later one. */
  function Remaining(result: string, m: Option<RecordMatch>): (cs: seq<Captures>)
    requires m.Some? ==> m.value.end <= |result| && NumericGroups(m.value.groups)
    ensures forall i :: 0 <= i < |cs| ==> NumericGroups(cs[i])
  {
    match m
    case None => []
    case Some(x) => [x.groups] + AllMatches(result, x.end)
  }

  /** Pushing the message of the current match and moving `lastIndex` to
      its end keeps what is pushed plus what is left unchanged. */
  lemma NextMatch(result: string, level: string, pushed: seq<Message>, m: RecordMatch, message: Message)
    requires m.end <= |result| && NumericGroups(m.groups)
    requires message == ToMessage(m.groups, level)
    ensures pushed + [message] + ToMessages(Remaining(result, ExecFrom(result, m.end)), level)
         == pushed + ToMessages(Remaining(result, Some(m)), level)
  {
    var rest := AllMatches(result, m.end);
    RemainingFrom(result, m.end);
    ToMessagesCons(m.groups, rest, level);
    AppendOne(pushed, message, ToMessages(rest, level));
  }

  /** What is left after `exec` from e is every match from e on. */
  lemma RemainingFrom(result: string, e: nat)
    requires e <= |result|
    ensures Remaining(result, ExecFrom(result, e)) == AllMatches(result, e)
  {
  }

  lemma ToMessagesCons(c: Captures, rest: seq<Captures>, level: string)
    requires NumericGroups(c) && forall i :: 0 <= i < |rest| ==> NumericGroups(rest[i])
    ensures ToMessages([c] + rest, level) == [ToMessage(c, level)] + ToMessages(rest, level)
  {
    assert ([c] + rest)[1..] == rest;
  }

  lemma AppendOne(pushed: seq<Message>, message: Message, tail: seq<Message>)
    ensures pushed + [message] + tail == pushed + ([message] + tail)
  {
  }

  /** The `while (match !== null)` loop of lib/init.js:179-198: one message
      per match of the record pattern, in the order the matches occur. */
  method DecodeMessages(result: string, level: string) returns (messages: seq<Message>)
    ensures messages == MessagesOf(result, level)
  {
    messages := [];
    var lastIndex := 0;
    var match_ := ExecFrom(result, lastIndex);
    while match_.Some?
      invariant lastIndex <= |result| && match_ == ExecFrom(result, lastIndex)
      invariant messages + ToMessages(Remaining(result, match_), level) == MessagesOf(result, level)
      decreases |result| - lastIndex
    {
      var m := match_.value;
      var line := ZeroBased(DecimalValue(m.groups.line));
      var col := ZeroBased(DecimalValue(m.groups.column));
      var message := Message(level, Excerpt(m.groups.message, m.groups.severity, m.groups.explanation),
                             line, col, m.groups.discussion);
      ghost var before := messages;
      messages := messages + [message];
      lastIndex := m.end;
      match_ := ExecFrom(result, lastIndex);
      NextMatch(result, level, before, m, message);
    }
  }
}
