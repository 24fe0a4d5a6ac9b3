/** The outcome of `lint` (lib/init.js:118-199): the argument vector from
    the user's options, one run of perlcritic on the editor's text, then
    null or the decoded messages. */
module Lint {
  import opened Wrappers
  import opened CmdOptions
  import opened Diagnostics

  /** What `Helpers.exec` settles with: perlcritic's standard output, or
      the error it rejects with. */
  datatype ExecOutcome = Printed(output: string) | Failed(message: string)

  /** What the promise `lint` returns settles with: rejected by the error
      `parseCmdOptions` throws, null, or the list of messages. */
  datatype LintResult = Rejected(error: ParseError) | Null | Messages(messages: seq<Message>)

  /** `lint(textEditor)`. Running perlcritic is the function `exec` from
      the argument vector to its outcome; `fileText` is the editor's text
      when perlcritic starts and `currentText` its text when it is done.
      A failed run, or a text changed meanwhile, gives null; otherwise the
      messages decoded from the output, possibly none. */
  method Lint(cmdOptions: string, exec: seq<string> -> ExecOutcome, fileText: string, currentText: string,
              level: string) returns (r: LintResult)
    ensures r.Rejected? <==> cmdOptions != [] && TokensFrom(cmdOptions, 0) == []
    ensures r.Null? <==> !r.Rejected? && (exec(Parameters(cmdOptions)).Failed? || currentText != fileText)
    ensures r.Messages? ==> r.messages == MessagesOf(exec(Parameters(cmdOptions)).output, level)
  {
    var parameters := ParseCmdOptions(cmdOptions);
    if parameters.Err? {
      return Rejected(parameters.error);
    }
    var result := exec(parameters.value);
    if result.Failed? {
      return Null;
    }
    if currentText != fileText {
      return Null;
    }
    var messages := DecodeMessages(result.output, level);
    return Messages(messages);
  }
}
