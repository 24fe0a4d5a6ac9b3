# linter-perlcritic: option parsing and record decoding, in Dafny

linter-perlcritic is an Atom package that runs the Perl linter perlcritic
on the text of the editor and shows what it reports. This project models
the two parts of `lib/init.js` that do the work. The rest of the package is
Atom plumbing.

- `parseCmdOptions` turns the option string the user configured into an
  argument vector. It takes flag/value pairs, then adds `-verbose` with a
  private output format and the standard-input sentinel `-`.
- `lint` runs perlcritic once. It returns null when the run fails or when
  the text changed meanwhile. Otherwise it decodes perlcritic's output with
  a regular expression built around the separator `~~lpc~~`. Each match
  becomes one message, at its 0-based line and column.

The modules follow the program:

| module | file | what it holds |
|---|---|---|
| `Wrappers` | wrappers.dfy | `Option` and `Result` |
| `JsString` | js_string.dfy | the JavaScript string built-ins the code relies on: `indexOf`, `replace(t, '')`, `substr(0, n)`, `trim` |
| `FlagPattern`, `FlagPatternFacts` | flag_pattern.dfy | the flag pattern `/--?\w+\s*=?/`, matched by hand, and where it matches |
| `OutputFormat` | output_format.dfy | the separator and the `-verbose` format string |
| `CmdOptions` | cmd_options.dfy | `parseCmdOptions` as an imperative method with its `forEach` loop, proved against the function `Parameters`, and what that function yields |
| `RecordPattern` | record_pattern.dfy | the record regular expression with the `g` and `m` flags, in the backtracking order ECMAScript gives it, and the `exec` loop |
| `PatternFacts` | pattern_facts.dfy | how that pattern behaves on a line whose separators are at known places |
| `Diagnostics` | diagnostics.dfy | the `while (match !== null)` loop as an imperative method, and the message each match becomes |
| `RecordEncoding` | record_encoding.dfy | a violation as perlcritic prints it with the format: the encoder |
| `RoundTrip` | round_trip.dfy | the pattern matches one printed record exactly and reads back its fields |
| `DecodeOutput` | decode_output.dfy | the whole output of a list of violations decodes to one message per violation |
| `Lint` | lint.dfy | the outcome of `lint`: rejected, null, or the list of messages |

The main results are these:

- `CmdOptions.ParseCmdOptions` fails exactly when the option string is
  non-empty and holds no flag. Otherwise it returns `Parameters(s)`.
  `CmdOptions.ParametersFacts` states what that is: one cleaned flag and
  one raw value per flag token, in order, then the three trailer entries.
- `DecodeOutput.OutputMatches` is the round trip between encoder and
  decoder. On perlcritic's output for a list of well-formed violations,
  the `exec` loop finds exactly one match per violation, in order, with
  that violation's fields as its groups.
- `DecodeOutput.OutputMessages` follows from it. `lint` returns one message
  per violation, at its position less one, never below zero.
- `Lint.Lint` ties it together: the argument vector goes to the run, and
  the run's outcome decides between null and the decoded messages.

## Model

| member | source | states |
|---|---|---|
| CmdOptions.TokensFrom | lib/init.js:37 | defines the texts of the successive matches of the global flag search from a position, each search starting where the previous match ended |
| CmdOptions.Step | lib/init.js:39-56 | defines one call of the `forEach` callback on the working string: remove the token, take the value, remove the value, clean the token |
| CmdOptions.Run | lib/init.js:38-57 | defines the pairs the `forEach` loop pushes, one `Step` per token on the working string the previous step left; it holds two entries per token |
| CmdOptions.Parameters | lib/init.js:35-68 | defines the argument vector: the pairs `Run` gives on the whole option string, then `-verbose`, the format and `-` |
| CmdOptions.ParseCmdOptions | lib/init.js:31-71 | fails (the TypeError of `options.forEach` on null) exactly when the string is non-empty and no flag token occurs in it; otherwise returns the flag/value pairs of the `forEach` loop followed by `-verbose`, the format and `-` |
| CmdOptions.MatchAllFlags | lib/init.js:37 | the global match is null exactly when the pattern matches at no position of the string; otherwise it is the token list, whose first entry is the non-global match's text |
| CmdOptions.TokensLeftmost | lib/init.js:37 | from any position, there are no tokens exactly when the pattern matches nowhere from there; otherwise the first token is the text of the leftmost match at or after it, and the rest are the tokens from that match's end |
| CmdOptions.ForEachOption | lib/init.js:36-57 | the loop over the tokens, on a working string that starts as the whole option string, pushes exactly the pairs the step function gives, token after token |
| CmdOptions.ConsumeOption | lib/init.js:39-53 | one callback removes the token from the working string, takes the text up to the next flag token (or all of it) as the value, removes it, and cleans the token |
| CmdOptions.ParametersFacts | lib/init.js:35-68 | the vector has two entries per flag token plus three; its last three are `-verbose`, the format and `-`; its flags are the dashes and word characters of each match in order; for a tidy string its values are the raw, untrimmed text between consecutive flags, the first preceded by the text before the first flag |
| CmdOptions.PairsFacts | lib/init.js:38-57 | the pairs the loop pushes: one per token, the cleaned flag names at even positions and, for a tidy string, the raw values at odd ones |
| CmdOptions.EmptyOptions | lib/init.js:35-68 | an empty option string gives only `-verbose`, the format and `-` |
| CmdOptions.CleanFlagOfMatch | lib/init.js:53 | `replace('=', '').trim()` on a matched token keeps its one or two dashes and its word characters and drops the white space and `=` after them, leaving a well-formed flag name |
| CmdOptions.RunValuesOfTidy | lib/init.js:40-51 | for a tidy string the values pushed are the text between consecutive flag matches, the first one opened by the text before the first flag, which stays in the working string |
| CmdOptions.StepRemovesFlag | lib/init.js:40 | `replace(option, '')` on the working string removes exactly the current token when only inert text precedes it |
| CmdOptions.StepValue | lib/init.js:43-48 | the value search on the working string takes the inert prefix and the text up to the next flag match |
| CmdOptions.StepRest | lib/init.js:51 | removing the value leaves the working string from the next flag on |
| CmdOptions.UntidyExample | lib/init.js:37-56 | for `---a b`, which is not tidy, the vector is `--a` with an empty value and the trailer: the `b` is lost |
| FlagPattern.MatchFirst | lib/init.js:44 | the non-global match is null exactly when the pattern matches at no position; otherwise it is the text of the match at a position where the pattern matches and at no earlier one |
| FlagPattern.DashCount | lib/init.js:37 | `--?` takes one or two dashes, and a word character follows them |
| FlagPatternFacts.FirstFromMin | lib/init.js:37 | the search returns the leftmost position at which the pattern matches |
| FlagPatternFacts.IndexOfFirstMatch | lib/init.js:44-46 | `indexOf` of the first match's text finds that match and no earlier position |
| JsString.IndexOfLeftmost | lib/init.js:46 | `indexOf` finds an occurrence at or before any occurrence of the text |
| JsString.ReplaceFirst | lib/init.js:40 | `replace(t, '')` leaves the string unchanged when t does not occur, and otherwise makes it shorter by the length of t (the same call at lib/init.js:51); `JsString.ReplaceAt` says which occurrence goes |
| JsString.ReplaceAt | lib/init.js:40 | the occurrence removed is the first one |
| JsString.Substr | lib/init.js:47 | `substr(0, n)` is a prefix whose length is n clamped to the string |
| JsString.TrimStart | lib/init.js:53 | removes exactly the leading white space |
| JsString.TrimEnd | lib/init.js:53 | removes exactly the trailing white space |
| RecordPattern.DigitRun | lib/init.js:171 | the maximal run of digits from a position, which is what `\d+` takes before a non-digit |
| RecordPattern.LineEnd | lib/init.js:172-174 | the first position where multiline `$` holds; a `(.+)` group cannot pass it |
| RecordPattern.ClosesAt | lib/init.js:176 | defines `SEPSEP$` at a position: two separators, then the end of a line |
| RecordPattern.LazyEnd | lib/init.js:176 | the lazy discussion group ends at the first position, from where it starts, that is followed by two separators and the end of a line: there is no such position before the one it returns, and none at all when it returns nothing, so a lone separator or a doubled one inside a line does not stop it |
| RecordPattern.TailAt | lib/init.js:175-176 | the severity group is digits ending at a separator, followed by a discussion of at least one character, then two separators and the end of a line |
| RecordPattern.GreedyAt | lib/init.js:172-174 | defines the backtracking of the `(.+)SEP` groups: each greedy group tries its ends from the end of its line downwards and takes the first at which a separator and the rest of the pattern match |
| RecordPattern.GreedyChained | lib/init.js:172-176 | whatever the backtracking finds is a chain of groups, each at least one character long and ending at a separator, in order, with the greedy groups and their separators on one line and the tail closed by two separators at the end of a line |
| RecordPattern.HeadAt | lib/init.js:171 | `(\d+):(\d+)SEP` matches with a line number of digits, a colon, a column of digits and a separator |
| RecordPattern.MatchAt | lib/init.js:170-177 | a match at a position ends within the text, and its line, column and severity groups are digit strings |
| RecordPattern.MatchIsInstance | lib/init.js:170-177 | the text a match spans is its line, `:`, its column and its other five groups, each followed by the separator, then one more separator; the end of a line follows; every group is non-empty; the brief description, explanation and policy name contain no line terminator |
| RecordPattern.ExecFrom | lib/init.js:180 | `exec` from `lastIndex` is null exactly when the pattern matches at no position from there; otherwise it is the match at the leftmost position at or after `lastIndex` where the pattern matches, with numeric line, column and severity groups |
| RecordPattern.AllMatches | lib/init.js:179-196 | the groups of every match the loop sees, each with numeric line, column and severity |
| PatternFacts.SearchFinds | lib/init.js:172-174 | a greedy `(.+)` group takes the largest end on its line at which the rest of the pattern matches |
| PatternFacts.GreedyNone | lib/init.js:172-174 | a greedy group finds nothing when no end on its line lets the rest match |
| PatternFacts.LazyFinds | lib/init.js:176 | the lazy group stops at a doubled separator followed by the end of a line when no such doubled separator comes before it, whatever lone separators or doubled ones inside a line do |
| PatternFacts.LazySkipsLoneSeparator | lib/init.js:176 | on `a~~lpc~~b~~lpc~~~~lpc~~` the discussion runs past the lone separator after `a` to the doubled one |
| PatternFacts.LazySkipsInnerPair | lib/init.js:176 | on `~~lpc~~~~lpc~~b~~lpc~~~~lpc~~` the discussion runs past the doubled separator that `b` follows on the same line |
| PatternFacts.ChainGroups | lib/init.js:172-176 | on a line where each of the three greedy groups ends at the largest separator that lets the rest match, the search returns exactly those three ends and the tail |
| RecordEncoding.NatStrValue | lib/init.js:182-183 | `parseInt` of a number printed in decimal gives the number back |
| RecordEncoding.RenderIsRecordText | lib/init.js:66 | the record the format prints for a violation is the text the pattern's instance would have for its groups, then the newline |
| RecordEncoding.FormatRendersRecord | lib/init.js:66 | the format, with perlcritic's directives expanded, is the record: each field followed by the separator, the discussion by two, then a newline |
| RoundTrip.RecordMatches | lib/init.js:170-177 | at the start of a printed well-formed record the pattern matches exactly that record, and its seven groups are the violation's fields |
| DecodeOutput.NoMatchAt | lib/init.js:171 | no match starts at the end of the text or at a non-digit |
| DecodeOutput.NextRecord | lib/init.js:180-195 | the matches from the start of a printed record are that record's fields, then the matches from the start of the next record: the match ends just before the record's newline, where no match can start |
| DecodeOutput.OutputMatches | lib/init.js:170-196 | on the output for a list of well-formed violations the loop finds their fields, one match per violation, in order |
| DecodeOutput.CapturesMessage | lib/init.js:182-193 | the groups of a violation's record become the message for that violation: its 0-based position, the excerpt from brief description, severity and explanation, and the discussion |
| DecodeOutput.OutputMessages | lib/init.js:179-198 | `lint` returns as many messages as there are violations, the i-th being the message of the i-th violation |
| DecodeOutput.NoHeadNoMessages | lib/init.js:179-198 | output in which no position starts with digits, a colon, digits and the separator gives an empty list of messages, not null |
| DecodeOutput.NoSeparatorNoMessages | lib/init.js:179-198 | output without the separator anywhere, such as a report of no violations, gives an empty list of messages |
| Diagnostics.DecimalValue | lib/init.js:182-183 | defines `Number.parseInt(ds, 10)` of a string of decimal digits: the value of its digits, most significant first |
| Diagnostics.Excerpt | lib/init.js:187 | defines the excerpt: the brief description, ` (Severity `, the severity, `) [`, the explanation and `.]` |
| Diagnostics.ExcerptExample | spec/atom-linter-perlcritic-spec.js:28 | the excerpt for the brief description `Code before strictures are enabled`, severity `5` and explanation `See page 429 of PBP` is the text the package's own test expects |
| Diagnostics.ToMessage | lib/init.js:182-193 | defines the message one match becomes: the configured level, the excerpt, the 0-based line and column, and the discussion as description |
| Diagnostics.MessagesOf | lib/init.js:179-198 | defines the messages `lint` returns for an output: the message of each match the `exec` loop finds, in order |
| Diagnostics.ZeroBased | lib/init.js:182-183 | `Math.max(n - 1, 0)`: one less for a positive number, zero otherwise |
| Diagnostics.ToMessages | lib/init.js:185-193 | one message per match, in order |
| Diagnostics.NextMatch | lib/init.js:185-195 | pushing the current match's message and running `exec` again keeps the pushed messages plus those still to come unchanged |
| Diagnostics.DecodeMessages | lib/init.js:179-198 | the loop returns the message of every match of the pattern, in order |
| Lint.Lint | lib/init.js:119-199 | rejected exactly when the option string is non-empty and holds no flag; otherwise null exactly when the run fails or the text changed meanwhile; otherwise the messages decoded from the run's output for the argument vector |

## Left out

- `activate`, `deactivate` and `provideLinter`'s other fields are configuration and subscription plumbing. The option string and level reach `Lint.Lint` as parameters; the executable path is part of `exec`.
- `loadDeps` and `getCwd` resolve modules and the working directory. They do not affect the argument vector or the decoding.
- Running perlcritic (`Helpers.exec`) is the parameter `exec` of `Lint.Lint`: a function from the argument vector to the output or an error. Which file, directory and environment it uses is not modelled. The editor's text before and after the run are two parameters.
- The error notification and its de-duplication (lib/init.js:149-160) are user-interface side effects. The model keeps only the null they lead to.
- `Helpers.generateRange` and the file path of a message are not part of this model. A message holds its 0-based line and column instead of a range.
- The model does not await the asynchronous run and returns a value instead of a promise. A rejected promise is the `Rejected` outcome.
- CmdOptions.ParseCmdOptions: an absent option string (undefined or null) is falsy like the empty string at lib/init.js:35. The model takes a `string` and represents an absent one as `""`, which `CmdOptions.EmptyOptions` covers.
- Lint.Lint: a non-empty option string with no flag makes `options.forEach` throw a TypeError on null. The model gives this as the `Rejected` outcome and does not say more about the exception.
- CmdOptions.ParametersFacts: the values claim holds only for tidy strings, where the text before the first flag does not end with a dash. Otherwise removing the first token can join a leftover dash with the text after it into a new flag. `CmdOptions.UntidyExample` shows `---a b` losing the `b`. The flag-name claim holds for every string.
- Values are pushed raw: lib/init.js:56 pushes `value` as `substr` returned it, and only the flag is trimmed (lib/init.js:53).
- RoundTrip.RecordMatches and DecodeOutput.OutputMatches are proved for well-formed violations only. A well-formed violation has a non-empty brief description on one line. Its explanation and policy name are non-empty, on one line, contain no `~` and are not `lpc`. Its discussion is not empty, contains no `~`, is not `lpc` and is not all digits. Outside these conditions a field can form or hide a separator, and the pattern may split the record elsewhere.
- RecordEncoding.FormatRendersRecord covers the seven directives the format uses. perlcritic's other directives and escapes are not modelled. Other characters stand for themselves.
- RecordEncoding.NatStrValue: numbers are unbounded. `parseInt` returns a double, and its rounding above 2^53 is not modelled.
- `IsSpace` lists the ECMAScript white space and line terminator characters by hand. Characters that later Unicode versions add to category Zs are not tracked.
- JavaScript strings are sequences of UTF-16 code units, and the model's `string` is a sequence of Unicode scalar values. A lone surrogate in an option string or in perlcritic's output cannot be represented. A character outside the Basic Multilingual Plane counts as one position here and as two in JavaScript, which shifts `indexOf` and `substr` positions but not which text they select.
