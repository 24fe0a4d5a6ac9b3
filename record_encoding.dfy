/** What perlcritic prints for one violation when it is run with the
    `-verbose` format of lib/init.js:66: the format's directives expanded
    with the violation's fields, its `\n` escape turned into a newline. */
module RecordEncoding {
  import opened Wrappers
  import opened OutputFormat
  import opened RecordPattern
  import opened Diagnostics

  /** One violation as perlcritic reports it: the 1-based position, the
      brief description, the explanation, the policy name, the severity
      number and the full discussion. */
  datatype Violation = Violation(
    line: nat,
    column: nat,
    message: string,
    explanation: string,
    policy: string,
    severity: nat,
    discussion: string)

  /** The decimal digit for d. */
  function DigitChar(d: nat): (c: char)
    requires d < 10
    ensures IsDigit(c) && DigitValue(c) == d
  {
    '0' + d as char
  }

  /** n printed in decimal, without leading zeros. */
  function NatStr(n: nat): (r: string)
    ensures |r| > 0 && AllDigits(r)
  {
    if n < 10 then [DigitChar(n)] else NatStr(n / 10) + [DigitChar(n % 10)]
  }

  /** Parsing the printed number gives the number back. */
  lemma {:induction false} NatStrValue(n: nat)
    ensures DecimalValue(NatStr(n)) == n
  {
    var r := NatStr(n);
    if n >= 10 {
      assert r[..|r| - 1] == NatStr(n / 10);
      NatStrValue(n / 10);
    } else {
      assert r[..|r| - 1] == [];
    }
  }

  /** The text a `%` directive of the format stands for, for the seven
      directives the format uses. */
  function Directive(c: char, v: Violation): Option<string> {
    match c
    case 'L' => Some(NatStr(v.line))
    case 'c' => Some(NatStr(v.column))
    case 'm' => Some(v.message)
    case 'e' => Some(v.explanation)
    case 'p' => Some(v.policy)
    case 's' => Some(NatStr(v.severity))
    case 'd' => Some(v.discussion)
    case _ => None
  }

  /** The format f expanded for v: each of the directives above becomes its
      text, the escape `\n` becomes a newline, and every other character
      stands for itself. */
  function Expand(f: string, v: Violation): string
    decreases |f|
  {
    if f == [] then []
    else if |f| >= 2 && f[0] == '%' && Directive(f[1], v).Some? then
      Directive(f[1], v).value + Expand(f[2..], v)
    else if |f| >= 2 && f[0] == '\\' && f[1] == 'n' then
      "\n" + Expand(f[2..], v)
    else
      [f[0]] + Expand(f[1..], v)
  }

  /** The record for v: the format's fields in order, each followed by the
      separator, the discussion by two, then the newline. */
  function Render(v: Violation): string {
    NatStr(v.line) + ":" + NatStr(v.column) + Sep + v.message + Sep + v.explanation + Sep
      + v.policy + Sep + NatStr(v.severity) + Sep + v.discussion + Sep + Sep + "\n"
  }

  /** Text whose last character is neither `%` nor `\`: no directive or
      escape of the expansion straddles its end. */
  predicate EndsPlain(t: string) {
    |t| > 0 && t[|t| - 1] != '%' && t[|t| - 1] != '\\'
  }

  /** A format whose first part ends plainly expands part by part. */
  lemma {:induction false} ExpandAppend(a: string, b: string, v: Violation)
    requires EndsPlain(a)
    ensures Expand(a + b, v) == Expand(a, v) + Expand(b, v)
    decreases |a|
  {
    var f := a + b;
    assert f[0] == a[0];
    if |a| >= 2 {
      assert f[1] == a[1];
    }
    if |a| >= 2 && a[0] == '%' && Directive(a[1], v).Some? {
      assert f[2..] == a[2..] + b;
      if |a| > 2 {
        ExpandAppend(a[2..], b, v);
      } else {
        assert a[2..] == [];
      }
    } else if |a| >= 2 && a[0] == '\\' && a[1] == 'n' {
      assert f[2..] == a[2..] + b;
      if |a| > 2 {
        ExpandAppend(a[2..], b, v);
      } else {
        assert a[2..] == [];
      }
    } else {
      assert f[1..] == a[1..] + b;
      if |a| > 1 {
        ExpandAppend(a[1..], b, v);
      } else {
        assert a[1..] == [];
      }
    }
  }

  /** The expansion of one directive. */
  lemma ExpandDirective(c: char, v: Violation)
    requires Directive(c, v).Some?
    ensures Expand(['%', c], v) == Directive(c, v).value
  {
    assert ['%', c][2..] == [];
  }

  /** The separator expands to itself. */
  lemma ExpandSep(v: Violation)
    ensures Expand(Sep, v) == Sep
  {
    var t := Sep;
    assert t[1..] == "~lpc~~";
    assert t[1..][1..] == "lpc~~";
    assert t[1..][1..][1..] == "pc~~";
    assert t[1..][1..][1..][1..] == "c~~";
    assert t[1..][1..][1..][1..][1..] == "~~";
    assert t[1..][1..][1..][1..][1..][1..] == "~";
    assert t[1..][1..][1..][1..][1..][1..][1..] == "";
  }

  /** The position part of the format. */
  lemma ExpandPosition(v: Violation)
    ensures Expand("%L:%c", v) == NatStr(v.line) + ":" + NatStr(v.column)
  {
    var f := "%L:%c";
    assert f[2..] == ":%c";
    assert f[2..][1..] == "%c";
    assert f[2..][1..][2..] == "";
  }

  /** The newline escape that ends the format. */
  lemma ExpandNewline(v: Violation)
    ensures Expand("\\n", v) == "\n"
  {
    assert "\\n"[2..] == "";
  }

  /** The format of lib/init.js:66, expanded for v, is the record for v. */
  lemma FormatRendersRecord(v: Violation)
    ensures Expand(VerboseFormat, v) == Render(v)
  {
    var a := "%L:%c";
    assert a[|a| - 1] == 'c';
    ExpandPosition(v);
    ExpandField(a, 'm', v);
    a := a + Sep + "%m";
    ExpandField(a, 'e', v);
    a := a + Sep + "%e";
    ExpandField(a, 'p', v);
    a := a + Sep + "%p";
    ExpandField(a, 's', v);
    a := a + Sep + "%s";
    ExpandField(a, 'd', v);
    a := a + Sep + "%d";
    ExpandEnd(a, v);
  }

  /** A separator and a directive after a part of the format that ends plainly. */
  lemma ExpandField(a: string, c: char, v: Violation)
    requires EndsPlain(a) && Directive(c, v).Some?
    ensures Expand(a + Sep + ['%', c], v) == Expand(a, v) + Sep + Directive(c, v).value
    ensures EndsPlain(a + Sep + ['%', c])
  {
    ExpandSep(v);
    ExpandDirective(c, v);
    ExpandAppend(a, Sep, v);
    ExpandStep(a, Sep, ['%', c], v);
    assert (a + Sep + ['%', c])[|a + Sep + ['%', c]| - 1] == c;
  }

  /** The two separators and the newline escape that end the format. */
  lemma ExpandEnd(a: string, v: Violation)
    requires EndsPlain(a)
    ensures Expand(a + Sep + Sep + "\\n", v) == Expand(a, v) + Sep + Sep + "\n"
  {
    ExpandSep(v);
    ExpandNewline(v);
    ExpandAppend(a, Sep, v);
    ExpandStep(a, Sep, Sep, v);
    ExpandStep(a + Sep, Sep, "\\n", v);
  }

  /** One step of the format: the part so far, whose last piece ends
      plainly, then the next piece. */
  lemma ExpandStep(a: string, p: string, b: string, v: Violation)
    requires EndsPlain(p)
    ensures Expand(a + p + b, v) == Expand(a + p, v) + Expand(b, v)
  {
    assert (a + p)[|a + p| - 1] == p[|p| - 1];
    ExpandAppend(a + p, b, v);
  }

  /** perlcritic's whole output for a list of violations: their records, in order. */
  function Output(vs: seq<Violation>): string {
    if vs == [] then [] else Render(vs[0]) + Output(vs[1..])
  }

  /** No character of t is a `~`. */
  predicate NoTilde(t: string) {
    forall i :: 0 <= i < |t| ==> t[i] != '~'
  }

  /** A field that a greedy `(.+)` group can only take whole: on one line,
      and unable to form a separator with the ones around it. */
  predicate InnerField(t: string) {
    |t| > 0 && NoLineBreak(t) && NoTilde(t) && t != "lpc"
  }

  /** The fields of v are such that the record pattern reads them back:
      the brief description is on one line; the explanation and the policy
      name cannot form or hide a separator; the discussion is not empty,
      cannot form or hide a separator, and is not all digits (otherwise the
      severity group could end inside it). */
  predicate WellFormed(v: Violation) {
    && |v.message| > 0 && NoLineBreak(v.message)
    && InnerField(v.explanation) && InnerField(v.policy)
    && |v.discussion| > 0 && NoTilde(v.discussion) && v.discussion != "lpc"
    && !AllDigits(v.discussion)
  }

  /** The groups the record pattern captures from the record for v. */
  function CapturesOf(v: Violation): (c: Captures)
    ensures NumericGroups(c)
  {
    Captures(NatStr(v.line), NatStr(v.column), v.message, v.explanation, v.policy,
             NatStr(v.severity), v.discussion)
  }

  /** The record for v is the pattern's text for its groups, then the
      newline. */
  lemma RenderIsRecordText(v: Violation)
    ensures Render(v) == RecordText(CapturesOf(v), Sep) + "\n"
  {
  }

  /** The groups of a list of violations. */
  function CapturesAll(vs: seq<Violation>): (cs: seq<Captures>)
    ensures |cs| == |vs|
    ensures forall i :: 0 <= i < |vs| ==> cs[i] == CapturesOf(vs[i])
  {
    if vs == [] then [] else [CapturesOf(vs[0])] + CapturesAll(vs[1..])
  }
}
