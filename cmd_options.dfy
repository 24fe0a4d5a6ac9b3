/** `parseCmdOptions` (lib/init.js:31-71): the user's option string becomes
    an argument vector of flag/value pairs, followed by the forced
    `-verbose` format and the standard-input sentinel `-`. */
module CmdOptions {
  import opened Wrappers
  import opened JsString
  import opened FlagPattern
  import opened FlagPatternFacts
  import opened OutputFormat

  /** A non-empty option string without any flag makes `match` return null,
      and `options.forEach` then throws a TypeError. */
  datatype ParseError = NoFlagFound

  /** The three entries always appended, in this order. */
  const Trailer: seq<string> := ["-verbose", VerboseFormat, "-"]

  /** The texts of the successive matches of the global flag search from `from`. */
  function TokensFrom(s: string, from: nat): (ts: seq<string>)
    requires from <= |s|
    decreases |s| - from
  {
    match FirstFrom(s, from)
    case None => []
    case Some(p) => [Text(s, MatchAt(s, p))] + TokensFrom(s, MatchAt(s, p).End())
  }

  /** `cmdOptions.match(/--?\w+\s*=?/ig)`: every flag token, or null. */
  function MatchAllFlags(s: string): (r: Option<seq<string>>)
    ensures r.None? <==> forall q :: 0 <= q <= |s| ==> !FlagAt(s, q)
    ensures r.Some? ==> |r.value| > 0 && r.value[0] == MatchFirst(s).value
    ensures r.None? <==> TokensFrom(s, 0) == []
    ensures r.Some? ==> r.value == TokensFrom(s, 0)
  {
    var ts := TokensFrom(s, 0);
    if ts == [] then None else Some(ts)
  }

  /** The tokens from `from` on: none exactly when the pattern matches
      nowhere from there; otherwise the text of the leftmost match, then the
      tokens from the end of that match, where `lastIndex` moves to. */
  lemma TokensLeftmost(s: string, from: nat)
    requires from <= |s|
    ensures TokensFrom(s, from) == [] <==> forall q :: from <= q <= |s| ==> !FlagAt(s, q)
    ensures TokensFrom(s, from) != [] ==>
              exists p :: && from <= p <= |s| && FlagAt(s, p)
                          && (forall q :: from <= q < p ==> !FlagAt(s, q))
                          && TokensFrom(s, from) == [Text(s, MatchAt(s, p))] + TokensFrom(s, MatchAt(s, p).End())
  {
    match FirstFrom(s, from)
    case None =>
    case Some(p) =>
      assert TokensFrom(s, from) == [Text(s, MatchAt(s, p))] + TokensFrom(s, MatchAt(s, p).End());
  }

  /** `option.replace('=', '').trim()`. */
  function CleanFlag(option: string): string {
    Trim(ReplaceFirst(option, "="))
  }

  /** The value search of one step: the text up to the first occurrence of
      the next flag token, or all of it when there is none. */
  function NextValue(temp: string): string {
    match MatchFirst(temp)
    case None => temp
    case Some(next) => Substr(temp, IndexOf(temp, next))
  }

  /** What one call of the `forEach` callback produces: the cleaned flag,
      its value, and the working string left for the next call. */
  datatype StepOut = StepOut(flag: string, value: string, rest: string)

  /** One call of the callback on the working string `temp`: the token is
      removed, the text up to the next flag token becomes the value and is
      removed too. */
  function Step(temp: string, option: string): StepOut {
    var afterFlag := ReplaceFirst(temp, option);
    var value := NextValue(afterFlag);
    StepOut(CleanFlag(option), value, ReplaceFirst(afterFlag, value))
  }

  /** The pairs the `forEach` loop pushes, one step per token, with the
      working string `temp` consumed as the code consumes it. */
  function Run(temp: string, options: seq<string>): (params: seq<string>)
    ensures |params| == 2 * |options|
    decreases |options|
  {
    if options == [] then []
    else
      var st := Step(temp, options[0]);
      [st.flag, st.value] + Run(st.rest, options[1..])
  }

  /** The entries at even positions of a list of pairs. */
  function Evens(q: seq<string>): seq<string> {
    if |q| < 2 then [] else [q[0]] + Evens(q[2..])
  }

  /** The entries at odd positions of a list of pairs. */
  function Odds(q: seq<string>): seq<string> {
    if |q| < 2 then [] else [q[1]] + Odds(q[2..])
  }

  /** Reference for the flags: at each match, its dashes and word characters. */
  function FlagNamesFrom(s: string, from: nat): seq<string>
    requires from <= |s|
    decreases |s| - from
  {
    match FirstFrom(s, from)
    case None => []
    case Some(p) => [FlagName(s[p..])] + FlagNamesFrom(s, MatchAt(s, p).End())
  }

  /** Reference for the values: the raw text between the end of each match
      and the start of the next (or the end of the string); `pre` is put in
      front of the first one. */
  function ValuesFrom(s: string, pre: string, from: nat): seq<string>
    requires from <= |s|
    decreases |s| - from
  {
    match FirstFrom(s, from)
    case None => []
    case Some(p) =>
      var e := MatchAt(s, p).End();
      var stop := match FirstFrom(s, e) case None => |s| case Some(q) => q;
      [pre + s[e..stop]] + ValuesFrom(s, "", e)
  }

  /** The values the code produces for a tidy string: the text before the
      first flag stays in the working string and so opens the first value. */
  function ExpectedValues(s: string): seq<string> {
    match FirstFrom(s, 0)
    case None => []
    case Some(p0) => ValuesFrom(s, s[..p0], 0)
  }

  /** The text before the first flag does not end with a dash, so removing
      that flag cannot make a new flag out of the text around it. */
  predicate Tidy(s: string) {
    match FirstFrom(s, 0)
    case None => false
    case Some(p0) => p0 == 0 || s[p0 - 1] != '-'
  }

  /** Text in front of which no flag can start, whatever follows it. */
  predicate Inert(pre: string) {
    && (|pre| == 0 || pre[|pre| - 1] != '-')
    && forall q :: 0 <= q < |pre| ==> !FlagAt(pre, q)
  }

  /** `parseCmdOptions(cmdOptions)`. An empty string gives only the
      trailer; otherwise every flag token yields the cleaned flag and the
      raw value that follows it. */
  method ParseCmdOptions(cmdOptions: string) returns (r: Result<seq<string>, ParseError>)
    ensures r.Err? <==> cmdOptions != [] && TokensFrom(cmdOptions, 0) == []
    ensures r.Ok? ==> r.value == Parameters(cmdOptions)
  {
    var parameters: seq<string> := [];
    if cmdOptions != [] {
      var found := MatchAllFlags(cmdOptions);
      if found.None? {
        return Err(NoFlagFound);
      }
      parameters := ForEachOption(cmdOptions, found.value);
    } else {
      assert TokensFrom(cmdOptions, 0) == [];
    }
    ghost var pairs := parameters;
    parameters := parameters + ["-verbose"];
    parameters := parameters + [VerboseFormat];
    parameters := parameters + ["-"];
    PushTrailer(pairs);
    return Ok(parameters);
  }

  /** The `options.forEach` loop of `parseCmdOptions`: the working string
      starts as the whole option string, and each token pushes its cleaned
      flag and its value. */
  method ForEachOption(cmdOptions: string, options: seq<string>) returns (parameters: seq<string>)
    ensures parameters == Run(cmdOptions, options)
  {
    parameters := [];
    var temp := cmdOptions;
    var i := 0;
    assert options[i..] == options;
    while i < |options|
      invariant 0 <= i <= |options|
      invariant parameters + Run(temp, options[i..]) == Run(cmdOptions, options)
    {
      ghost var before := temp;
      ghost var pushed := parameters;
      var cleanedOption, value;
      cleanedOption, value, temp := ConsumeOption(temp, options[i]);
      parameters := parameters + [cleanedOption];
      parameters := parameters + [value];
      PushStep(cmdOptions, options, i, pushed, before, cleanedOption, value, temp);
      i := i + 1;
    }
    assert options[i..] == [];
  }

  /** The body of the `forEach` callback: removes the token from the working
      string, takes the text up to the next flag token as the value, removes
      that too, and cleans the token. Its specification is `Step`. */
  method ConsumeOption(temp: string, option: string) returns (cleanedOption: string, value: string, rest: string)
    ensures StepOut(cleanedOption, value, rest) == Step(temp, option)
  {
    var afterFlag := ReplaceFirst(temp, option);
    value := afterFlag;
    var nextOption := MatchFirst(afterFlag);
    if nextOption.Some? {
      var index := IndexOf(afterFlag, nextOption.value);
      value := Substr(afterFlag, index);
    }
    rest := ReplaceFirst(afterFlag, value);
    cleanedOption := CleanFlag(option);
  }

  /** The flag/value pairs the loop pushes for the option string s. */
  function Pairs(s: string): seq<string> {
    Run(s, TokensFrom(s, 0))
  }

  /** What the pairs are: one pair per token, the cleaned flag names at the
      even positions and, for a tidy string, the raw values at the odd ones. */
  lemma PairsFacts(s: string)
    ensures |Pairs(s)| == 2 * |TokensFrom(s, 0)|
    ensures Evens(Pairs(s)) == FlagNamesFrom(s, 0)
    ensures Tidy(s) ==> Odds(Pairs(s)) == ExpectedValues(s)
  {
    PairFlags(s);
    if Tidy(s) {
      RunValuesOfTidy(s);
    }
  }

  /** Pushing the pair of one step keeps the loop invariant. */
  lemma PushStep(s: string, options: seq<string>, i: nat, pushed: seq<string>, before: string,
                 flag: string, value: string, rest: string)
    requires i < |options| && pushed + Run(before, options[i..]) == Run(s, options)
    requires StepOut(flag, value, rest) == Step(before, options[i])
    ensures pushed + [flag] + [value] + Run(rest, options[i + 1..]) == Run(s, options)
  {
    RunAt(before, options, i);
    AppendPair(pushed, flag, value, Run(rest, options[i + 1..]));
  }

  /** The run of the tokens from i on is the step on token i, then the run
      of the tokens after it. */
  lemma RunAt(temp: string, options: seq<string>, i: nat)
    requires i < |options|
    ensures var st := Step(temp, options[i]);
            Run(temp, options[i..]) == [st.flag, st.value] + Run(st.rest, options[i + 1..])
  {
    assert options[i..][0] == options[i] && options[i..][1..] == options[i + 1..];
  }

  lemma AppendPair(pushed: seq<string>, flag: string, value: string, tail: seq<string>)
    ensures pushed + [flag] + [value] + tail == pushed + ([flag, value] + tail)
  {
  }

  /** The argument vector for the option string s: its flag/value pairs,
      then the trailer. */
  function Parameters(s: string): seq<string> {
    Pairs(s) + Trailer
  }

  /** Pushing the three trailer entries one by one appends the trailer. */
  lemma PushTrailer(args: seq<string>)
    ensures args + ["-verbose"] + [VerboseFormat] + ["-"] == args + Trailer
  {
  }

  /** The argument vector of s has one flag/value pair per flag token, in
      order, then exactly the trailer: the flags are the cleaned token
      names and, for a tidy string, the values the raw text between them. */
  lemma ParametersFacts(s: string)
    ensures var out := Parameters(s);
            && |out| == 2 * |TokensFrom(s, 0)| + 3
            && out[|out| - 3..] == Trailer
            && Evens(out[..|out| - 3]) == FlagNamesFrom(s, 0)
            && (Tidy(s) ==> Odds(out[..|out| - 3]) == ExpectedValues(s))
  {
    TrailerSlices(Pairs(s));
    PairsFacts(s);
  }

  /** An empty option string gives just the trailer. */
  lemma EmptyOptions()
    ensures Parameters([]) == Trailer
  {
    assert TokensFrom([], 0) == [];
  }

  /** Appending the trailer, one entry at a time. */
  lemma TrailerSlices(args: seq<string>)
    ensures var out := args + ["-verbose"] + [VerboseFormat] + ["-"];
            && |out| == |args| + 3
            && out[|out| - 3..] == Trailer
            && out[..|out| - 3] == args
  {
  }

  /** The flag entries of the pairs are the flag names of the string. */
  lemma PairFlags(s: string)
    ensures Evens(Run(s, TokensFrom(s, 0))) == FlagNamesFrom(s, 0)
  {
    RunFlags(s, TokensFrom(s, 0));
    CleanTokens(s, 0);
  }

  /** `CleanFlag` applied to every token. */
  function CleanAll(options: seq<string>): seq<string> {
    if options == [] then [] else [CleanFlag(options[0])] + CleanAll(options[1..])
  }

  /** The flag entries of a run are the cleaned tokens, in order, whatever
      happens to the working string. */
  lemma {:induction false} RunEvens(temp: string, options: seq<string>)
    ensures Evens(Run(temp, options)) == CleanAll(options)
    decreases |options|
  {
    if options != [] {
      var st := Step(temp, options[0]);
      var rest := Run(st.rest, options[1..]);
      assert ([st.flag, st.value] + rest)[2..] == rest;
      RunEvens(st.rest, options[1..]);
    }
  }

  lemma RunFlags(s: string, options: seq<string>)
    ensures Evens(Run(s, options)) == CleanAll(options)
  {
    RunEvens(s, options);
  }

  /** Trailing white space after a non-space character is what `trimEnd` removes. */
  lemma {:induction false} TrimEndSpaces(x: string, k: nat)
    requires 0 < k <= |x| && !IsSpace(x[k - 1])
    requires forall j {:trigger IsSpace(x[j])} :: k <= j < |x| ==> IsSpace(x[j])
    ensures TrimEnd(x) == x[..k]
    decreases |x| - k
  {
    if |x| > k {
      assert x[..|x| - 1][..k] == x[..k];
      TrimEndSpaces(x[..|x| - 1], k);
    }
  }

  /** End of the white space after the word characters of a flag match. */
  function NameAndSpaceLen(v: string): (e: nat)
    requires StartsFlag(v)
    ensures e <= |v|
  {
    var d := DashCount(v);
    var w := WordRun(v[d..]);
    d + w + SpaceRun(v[d + w..])
  }

  /** No character of a flag match before its optional `=` is an `=`. */
  lemma NoEqualsBefore(v: string)
    requires StartsFlag(v)
    ensures forall j :: 0 <= j < NameAndSpaceLen(v) ==> v[j] != '='
  {
    var d := DashCount(v);
    var w := WordRun(v[d..]);
    forall j | 0 <= j < NameAndSpaceLen(v) ensures v[j] != '=' {
      if j >= d + w {
        assert v[j] == v[d + w..][j - d - w] && IsSpace(v[d + w..][j - d - w]);
      } else if j >= d {
        assert v[j] == v[d..][j - d] && IsWordChar(v[d..][j - d]);
      }
    }
  }

  /** `replace('=', '')` on a matched token drops its optional trailing `=`. */
  lemma RemoveEquals(v: string)
    requires StartsFlag(v)
    ensures ReplaceFirst(v[..FlagLen(v)], "=") == v[..NameAndSpaceLen(v)]
  {
    var e := NameAndSpaceLen(v);
    var n := FlagLen(v);
    var tok := v[..n];
    NoEqualsBefore(v);
    forall j | 0 <= j < e ensures !OccursAt(tok, "=", j) {
      assert tok[j..j + 1][0] == tok[j] == v[j];
    }
    if n == e + 1 {
      assert tok[e..e + 1] == "=";
      IndexOfIs(tok, "=", e);
    } else {
      assert IndexOf(tok, "=") == -1;
    }
  }

  /** `trim()` of the dashes, word characters and white space leaves the flag name. */
  lemma TrimName(v: string)
    requires StartsFlag(v)
    ensures Trim(v[..NameAndSpaceLen(v)]) == FlagName(v)
  {
    var x := v[..NameAndSpaceLen(v)];
    var k := |FlagName(v)|;
    NameThenSpaces(v, x, k);
    NoLeadingSpace(x);
    TrimEndSpaces(x, k);
  }

  /** A string that starts with a dash has no leading white space. */
  lemma NoLeadingSpace(x: string)
    requires |x| > 0 && x[0] == '-'
    ensures TrimStart(x) == x
  {
  }

  /** The text a flag match keeps before its `=`: the flag name, ending
      with a word character, then only white space. */
  lemma NameThenSpaces(v: string, x: string, k: nat)
    requires StartsFlag(v) && x == v[..NameAndSpaceLen(v)] && k == |FlagName(v)|
    ensures 0 < k <= |x| && x[0] == '-' && !IsSpace(x[k - 1]) && x[..k] == FlagName(v)
    ensures forall j {:trigger IsSpace(x[j])} :: k <= j < |x| ==> IsSpace(x[j])
  {
    var d := DashCount(v);
    var w := WordRun(v[d..]);
    assert x[k - 1] == v[d..][w - 1] && IsWordChar(v[d..][w - 1]);
    forall j | k <= j < |x| ensures IsSpace(x[j]) {
      assert x[j] == v[d + w..][j - d - w] && IsSpace(v[d + w..][j - d - w]);
    }
  }

  /** A flag name is dashes followed by word characters. */
  lemma FlagNameShape(v: string)
    requires StartsFlag(v)
    ensures IsFlagName(FlagName(v))
  {
    var d := DashCount(v);
    var f := FlagName(v);
    forall k | d <= k < |f| ensures IsWordChar(f[k]) {
      assert f[k] == v[d..][k - d];
    }
  }

  /** Cleaning a matched token keeps its dashes and word characters and
      drops the white space and `=` after them. */
  lemma CleanFlagOfMatch(v: string)
    requires StartsFlag(v)
    ensures CleanFlag(v[..FlagLen(v)]) == FlagName(v)
    ensures IsFlagName(FlagName(v))
  {
    RemoveEquals(v);
    TrimName(v);
    FlagNameShape(v);
  }

  /** The cleaned tokens are the reference flag names. */
  lemma {:induction false} CleanTokens(s: string, from: nat)
    requires from <= |s|
    ensures CleanAll(TokensFrom(s, from)) == FlagNamesFrom(s, from)
    decreases |s| - from
  {
    match FirstFrom(s, from)
    case None =>
    case Some(p) =>
      var sp := MatchAt(s, p);
      assert Text(s, sp) == s[p..][..FlagLen(s[p..])];
      CleanFlagOfMatch(s[p..]);
      var ts := TokensFrom(s, from);
      assert ts[1..] == TokensFrom(s, sp.End());
      CleanTokens(s, sp.End());
  }

  /** No flag can start inside inert text, whatever text follows it. */
  lemma InertNoFlag(pre: string, x: string)
    requires Inert(pre)
    ensures forall q :: 0 <= q < |pre| ==> !FlagAt(pre + x, q)
  {
    forall q | 0 <= q < |pre| ensures !FlagAt(pre + x, q) {
      assert !FlagAt(pre, q);
    }
  }

  /** The text before the first flag of a tidy string is inert. */
  lemma InertOfTidy(s: string)
    requires Tidy(s)
    ensures Inert(s[..FirstFrom(s, 0).value])
  {
    var p0 := FirstFrom(s, 0).value;
    forall q | 0 <= q < p0 ensures !FlagAt(s[..p0], q) {
      if FlagAt(s[..p0], q) {
        StartsFlagExtends(s[..p0][q..], s[q..]);
        FirstFromMin(s, 0, q);
        assert false;
      }
    }
  }

  /** Where the next flag search from `from` stops: the next flag, or the end. */
  function NextStop(s: string, from: nat): (stop: nat)
    requires from <= |s|
    ensures from <= stop <= |s|
  {
    match FirstFrom(s, from) case None => |s| case Some(q) => q
  }

  /** A search in `pre + x`, with `pre` inert, finds the match a search in x finds, shifted by `pre`. */
  lemma InertSearch(pre: string, x: string)
    requires Inert(pre)
    ensures FirstFrom(pre + x, 0).None? <==> FirstFrom(x, 0).None?
    ensures FirstFrom(pre + x, 0).Some? ==> FirstFrom(pre + x, 0).value == |pre| + FirstFrom(x, 0).value
  {
    InertNoFlag(pre, x);
    FirstFromSkip(pre + x, 0, |pre|);
    assert (pre + x)[|pre|..] == x;
    FirstFromShift(pre + x, |pre|, x, 0);
  }

  /** Where a search of the text from `from` on stops: the next flag, or the end. */
  function Stop(x: string): (stop: nat)
    ensures stop <= |x|
  {
    match FirstFrom(x, 0) case None => |x| case Some(q) => q
  }

  /** `replace(option, '')` on `pre + x`, where x starts with the matched
      token, removes exactly that token. */
  lemma StepRemovesFlag(pre: string, x: string)
    requires FlagAt(x, 0) && Inert(pre)
    ensures ReplaceFirst(pre + x, Text(x, MatchAt(x, 0))) == pre + x[MatchAt(x, 0).len..]
  {
    var n := MatchAt(x, 0).len;
    var tok := Text(x, MatchAt(x, 0));
    TokenIndex(pre, x);
    RemoveAfterPrefix(pre, x, tok, n);
  }

  /** `indexOf` of the token x starts with finds it right after `pre`. */
  lemma TokenIndex(pre: string, x: string)
    requires FlagAt(x, 0) && Inert(pre)
    ensures IndexOf(pre + x, Text(x, MatchAt(x, 0))) == |pre|
  {
    var temp := pre + x;
    InertSearch(pre, x);
    assert FirstFrom(x, 0) == Some(0);
    IndexOfFirstMatch(temp, |pre|);
    assert temp[|pre|..] == x;
    MatchAtShift(temp, |pre|, x, 0);
  }

  /** `indexOf` of the next flag token in `pre + x` is where the search found it. */
  lemma NextIndex(pre: string, x: string)
    requires Inert(pre) && FirstFrom(x, 0).Some?
    ensures MatchFirst(pre + x).Some?
    ensures IndexOf(pre + x, MatchFirst(pre + x).value) == |pre| + Stop(x)
  {
    var t := pre + x;
    var q := FirstFrom(x, 0).value;
    InertSearch(pre, x);
    assert FirstFrom(t, 0) == Some(|pre| + q);
    assert Stop(x) == q;
    IndexOfFirstMatch(t, |pre| + q);
  }

  /** The value search on `pre + x` takes `pre` and the text of x up to its first flag. */
  lemma StepValue(pre: string, x: string)
    requires Inert(pre)
    ensures NextValue(pre + x) == pre + x[..Stop(x)]
  {
    var t := pre + x;
    InertSearch(pre, x);
    if FirstFrom(x, 0).Some? {
      NextIndex(pre, x);
      var i := |pre| + Stop(x);
      ValueUpTo(t, i);
      SubstrPrefix(t, i);
      SliceConcat(pre, x, Stop(x), i);
    } else {
      assert x[..Stop(x)] == x;
    }
  }

  /** The value search stops where `indexOf` finds the next flag token. */
  lemma ValueUpTo(t: string, i: int)
    requires MatchFirst(t).Some? && IndexOf(t, MatchFirst(t).value) == i
    ensures NextValue(t) == Substr(t, i)
  {
  }

  /** Removing that value leaves the text of x from its first flag on. */
  lemma StepRest(pre: string, x: string)
    requires Inert(pre)
    ensures ReplaceFirst(pre + x, NextValue(pre + x)) == x[Stop(x)..]
  {
    StepValue(pre, x);
    var v := pre + x[..Stop(x)];
    assert (pre + x)[..|v|] == v;
    ReplacePrefix(pre + x, v);
    assert (pre + x)[|v|..] == x[Stop(x)..];
  }

  /** Searching x = s[e..] is searching s from e. */
  lemma StopOfSuffix(s: string, e: nat)
    requires e <= |s|
    ensures e + Stop(s[e..]) == NextStop(s, e)
  {
    FirstFromShift(s[e..], 0, s, e);
  }

  /** Searching from the end of a match or from the next match start gives the same matches. */
  lemma FromNextStop(s: string, e: nat)
    requires e <= |s|
    ensures TokensFrom(s, e) == TokensFrom(s, NextStop(s, e))
    ensures ValuesFrom(s, "", e) == ValuesFrom(s, "", NextStop(s, e))
  {
    if FirstFrom(s, e).Some? {
      assert FirstFrom(s, NextStop(s, e)) == FirstFrom(s, e);
    }
  }

  /** The loop on `pre + s[f..]`, where a flag starts at f and `pre` is inert:
      each step yields the text up to the next flag, `pre` in front of the
      first, and leaves the working string at that next flag (or empty). */
  lemma {:induction false} RunFrom(s: string, pre: string, f: nat)
    requires FlagAt(s, f) && Inert(pre)
    ensures Odds(Run(pre + s[f..], TokensFrom(s, f))) == ValuesFrom(s, pre, f)
    decreases |s| - f, 0
  {
    OddsStep(s, pre, f);
    RunTail(s, MatchAt(s, f).End());
  }

  /** The loop on the text from the next flag after e on yields the values
      from there on. */
  lemma {:induction false} RunTail(s: string, e: nat)
    requires e <= |s|
    ensures var stop := NextStop(s, e);
            Odds(Run(s[stop..], TokensFrom(s, stop))) == ValuesFrom(s, "", stop)
    decreases |s| - e, 1
  {
    var stop := NextStop(s, e);
    if stop < |s| {
      assert FlagAt(s, stop) by {
        assert FirstFrom(s, e) == Some(stop);
      }
      assert "" + s[stop..] == s[stop..];
      RunFrom(s, "", stop);
    } else {
      assert FirstFrom(s, stop) == None;
    }
  }

  /** One step of the loop adds one value, the same one the reference adds. */
  lemma OddsStep(s: string, pre: string, f: nat)
    requires FlagAt(s, f) && Inert(pre)
    ensures var e := MatchAt(s, f).End();
            var stop := NextStop(s, e);
            && Odds(Run(pre + s[f..], TokensFrom(s, f))) == [pre + s[e..stop]] + Odds(Run(s[stop..], TokensFrom(s, stop)))
            && ValuesFrom(s, pre, f) == [pre + s[e..stop]] + ValuesFrom(s, "", stop)
  {
    var e := MatchAt(s, f).End();
    var stop := NextStop(s, e);
    RunStep(s, pre, f);
    OddsCons(CleanFlag(Text(s, MatchAt(s, f))), pre + s[e..stop], Run(s[stop..], TokensFrom(s, stop)));
  }

  lemma OddsCons(flag: string, value: string, tail: seq<string>)
    ensures Odds([flag, value] + tail) == [value] + Odds(tail)
  {
    assert ([flag, value] + tail)[2..] == tail;
  }

  /** One step of the loop on `pre + s[f..]`, where a flag starts at f and
      `pre` is inert: it yields the flag and `pre` plus the text up to the
      next flag, and leaves the working string at that next flag. */
  lemma RunStep(s: string, pre: string, f: nat)
    requires FlagAt(s, f) && Inert(pre)
    ensures var e := MatchAt(s, f).End();
            var stop := NextStop(s, e);
            && Run(pre + s[f..], TokensFrom(s, f))
               == [CleanFlag(Text(s, MatchAt(s, f))), pre + s[e..stop]] + Run(s[stop..], TokensFrom(s, stop))
            && ValuesFrom(s, pre, f) == [pre + s[e..stop]] + ValuesFrom(s, "", stop)
  {
    var e := MatchAt(s, f).End();
    var stop := NextStop(s, e);
    var tok := Text(s, MatchAt(s, f));
    assert FirstFrom(s, f) == Some(f);
    assert TokensFrom(s, f) == [tok] + TokensFrom(s, e);
    FromNextStop(s, e);
    var afterFlag := ReplaceFirst(pre + s[f..], tok);
    StepFlag(s, pre, f);
    assert afterFlag == pre + s[e..];
    var value := NextValue(afterFlag);
    var rest := ReplaceFirst(afterFlag, value);
    StepValueAt(s, pre, e);
    assert value == pre + s[e..stop];
    assert rest == s[stop..];
  }

  /** Removing the flag token at f from `pre + s[f..]` leaves `pre` and the text after the token. */
  lemma StepFlag(s: string, pre: string, f: nat)
    requires FlagAt(s, f) && Inert(pre)
    ensures ReplaceFirst(pre + s[f..], Text(s, MatchAt(s, f))) == pre + s[MatchAt(s, f).End()..]
  {
    var x := s[f..];
    MatchAtShift(x, 0, s, f);
    StepRemovesFlag(pre, x);
    assert x[MatchAt(x, 0).len..] == s[MatchAt(s, f).End()..];
  }

  /** The value search on `pre + s[e..]` takes `pre` and the text up to the next flag,
      and removing it leaves the text from that flag on. */
  lemma StepValueAt(s: string, pre: string, e: nat)
    requires e <= |s| && Inert(pre)
    ensures NextValue(pre + s[e..]) == pre + s[e..NextStop(s, e)]
    ensures ReplaceFirst(pre + s[e..], NextValue(pre + s[e..])) == s[NextStop(s, e)..]
  {
    var x := s[e..];
    StepValue(pre, x);
    StepRest(pre, x);
    StopOfSuffix(s, e);
    SuffixSlices(s, e, Stop(x), NextStop(s, e));
  }

  /** For a tidy string, the values are the text between consecutive flags,
      the first one preceded by the text before the first flag. */
  lemma RunValuesOfTidy(s: string)
    requires Tidy(s)
    ensures Odds(Run(s, TokensFrom(s, 0))) == ExpectedValues(s)
  {
    var p0 := FirstFrom(s, 0).value;
    InertOfTidy(s);
    FromFirstFlag(s, s[..p0], p0);
    SplitAt(s, p0);
    RunFrom(s, s[..p0], p0);
  }

  /** Searching from 0 or from the first flag finds the same flags and values. */
  lemma FromFirstFlag(s: string, pre: string, p0: nat)
    requires FirstFrom(s, 0) == Some(p0)
    ensures TokensFrom(s, 0) == TokensFrom(s, p0)
    ensures ValuesFrom(s, pre, 0) == ValuesFrom(s, pre, p0)
  {
    assert FirstFrom(s, p0) == Some(p0);
  }

  // The option string "---a b" is not tidy: the search skips the first
  // dash and takes "--a " as the token; removing it from the working
  // string joins the leftover dash with "b" into the flag "-b", so the
  // value of "--a" is empty and "b" never reaches the argument vector.

  /** The one token of "---a b" starts at its second character. */
  lemma UntidyTokens()
    ensures FirstFrom("---a b", 0) == Some(1)
    ensures TokensFrom("---a b", 0) == ["--a "]
  {
    var s := "---a b";
    assert !FlagAt(s, 0);
    assert s[1..] == "--a b";
    assert FlagAt(s, 1);
    assert FirstFrom(s, 0) == Some(1);
    assert s[1..][2..] == "a b";
    assert WordRun("a b") == 1;
    assert s[1..][3..] == " b";
    assert SpaceRun(" b") == 1;
    assert MatchAt(s, 1) == Span(1, 4);
    assert Text(s, Span(1, 4)) == "--a ";
    assert !FlagAt(s, 5) && !FlagAt(s, 6);
    assert FirstFrom(s, 5) == None;
  }

  /** Removing the token leaves "-b". */
  lemma UntidyRemoveFlag()
    ensures ReplaceFirst("---a b", "--a ") == "-b"
  {
    var s := "---a b";
    assert s[0..4][2] != "--a "[2];
    assert s[1..5] == "--a ";
    IndexOfIs(s, "--a ", 1);
  }

  /** In "-b" the next flag starts at once: the value is empty and removing it changes nothing. */
  lemma UntidyValue()
    ensures NextValue("-b") == ""
    ensures ReplaceFirst("-b", "") == "-b"
  {
    assert FlagAt("-b", 0);
    assert "-b"[0..] == "-b";
    assert FirstFrom("-b", 0) == Some(0);
    assert MatchAt("-b", 0) == Span(0, 2);
    assert "-b"[0..2] == "-b";
    IndexOfIs("-b", "-b", 0);
    IndexOfIs("-b", "", 0);
  }

  /** The token cleans to "--a". */
  lemma UntidyClean()
    ensures CleanFlag("--a ") == "--a"
  {
    UntidyNoEquals();
    var o := "--a ";
    assert !IsSpace(o[0]);
    assert TrimStart(o) == o;
    assert IsSpace(o[3]) && o[..3] == "--a";
    assert !IsSpace('a');
    assert TrimEnd("--a") == "--a";
  }

  /** The token has no `=`. */
  lemma UntidyNoEquals()
    ensures IndexOf("--a ", "=") == -1
  {
    var o := "--a ";
    forall j | 0 <= j < 4 ensures !OccursAt(o, "=", j) {
      assert o[j..j + 1][0] == o[j];
    }
    assert IndexOfFrom(o, "=", 3) == -1;
    assert IndexOfFrom(o, "=", 1) == -1;
  }

  lemma UntidyPairs()
    ensures Pairs("---a b") == ["--a", ""]
  {
    UntidyTokens();
    UntidyRemoveFlag();
    UntidyValue();
    UntidyClean();
    assert Step("---a b", "--a ") == StepOut("--a", "", "-b");
    assert Run("-b", []) == [];
  }

  /** For "---a b" the argument vector is "--a" with an empty value: the
      text "b" after the flag is lost. */
  lemma UntidyExample()
    ensures !Tidy("---a b")
    ensures Parameters("---a b") == ["--a", ""] + Trailer
  {
    UntidyTokens();
    UntidyPairs();
  }
}
