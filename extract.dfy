/** `replace_latex_objects`: every LaTeX object the patterns recognise is cut
    out of the text, in the patterns' priority order, and replaced by a
    numbered placeholder surrounded by spaces. */
module Extract {
  import opened Wrappers
  import opened Text
  import opened Placeholder
  import opened Matchers

  /** An entry of `mularg_command_list`: a command name, its argument count and
      the indices of the arguments to translate. */
  datatype MulargCommand = MulargCommand(name: string, nargs: nat, translateArgs: seq<nat>)

  /** What the sentinel must satisfy for extraction and recovery to be sound:
      non-empty, and none of the characters matches start with, spaces or `?`. */
  predicate ValidMathCode(mathCode: string) {
    |mathCode| > 0 && forall k :: 0 <= k < |mathCode| ==> !IsMarkup(mathCode[k]) && mathCode[k] != ' ' && mathCode[k] != '?'
  }

  /** The pattern list of `replace_latex_objects`, in priority order. */
  function ObjectPatterns(mularg: seq<MulargCommand>, brace: bool, commandSimple: bool): (ps: seq<Pattern>)
    ensures forall k :: 0 <= k < |ps| ==> WellFormed(ps[k])
    ensures |ps| == 8 + |mularg| + (if brace then 1 else 0) + (if commandSimple then 1 else 0)
    ensures ps[..7] == [Delimited("$$", "$$"), Delimited("$", "$"), Delimited("\\[", "\\]"), Delimited("\\(", "\\)"),
                        Env(AnyName), SetCommand, SetBraced]
    ensures forall k :: 0 <= k < |mularg| ==> ps[7 + k] == CommandArgs(mularg[k].name, mularg[k].nargs)
    ensures ps[7 + |mularg|] == Command(AnyName)
    ensures brace ==> ps[8 + |mularg|] == Brace
    ensures commandSimple ==> ps[|ps| - 1] == CommandSimple
  {
    [Delimited("$$", "$$"), Delimited("$", "$"), Delimited("\\[", "\\]"), Delimited("\\(", "\\)"),
     Env(AnyName), SetCommand, SetBraced]
    + seq(|mularg|, k requires 0 <= k < |mularg| => CommandArgs(mularg[k].name, mularg[k].nargs))
    + [Command(AnyName)]
    + (if brace then [Brace] else [])
    + (if commandSimple then [CommandSimple] else [])
  }

  function MarkupCount(s: string): nat
  {
    if |s| == 0 then 0 else (if IsMarkup(s[0]) then 1 else 0) + MarkupCount(s[1..])
  }

  lemma {:induction false} MarkupCountAppend(a: string, b: string)
    ensures MarkupCount(a + b) == MarkupCount(a) + MarkupCount(b)
  {
    if |a| > 0 {
      assert (a + b)[1..] == a[1..] + b;
      MarkupCountAppend(a[1..], b);
    } else {
      assert a + b == b;
    }
  }

  lemma {:induction false} MarkupCountNone(s: string)
    requires forall k :: 0 <= k < |s| ==> !IsMarkup(s[k])
    ensures MarkupCount(s) == 0
  {
    if |s| > 0 { MarkupCountNone(s[1..]); }
  }

  function Padded(x: string): string { " " + x + " " }

  /** `text` with the span `sp` replaced by `rep`. */
  function Substitute(t: string, sp: Span, rep: string): string
    requires sp.start <= sp.end <= |t|
  {
    t[..sp.start] + rep + t[sp.end..]
  }

  /** The padded placeholder holds no markup character. */
  lemma PlaceholderMarkupFree(mathCode: string, n: nat)
    requires ValidMathCode(mathCode)
    ensures MarkupCount(Padded(VariableCode(mathCode, n))) == 0
  {
    var r := Padded(VariableCode(mathCode, n));
    VariableCodeShape(mathCode, n);
    var code := VariableCode(mathCode, n);
    forall k | 0 <= k < |r| ensures !IsMarkup(r[k]) {
      if 1 <= k < |r| - 1 {
        assert r[k] == code[k - 1];
        if k - 1 < |mathCode| {
          assert code[k - 1] == mathCode[k - 1];
        } else if k - 1 > |mathCode| {
          assert code[k - 1] == code[|mathCode| + 1..][k - 1 - |mathCode| - 1];
        }
      }
    }
    MarkupCountNone(r);
  }

  /** Replacing a span that starts with a markup character by a text
      without markup removes at least one markup character. */
  lemma SubstituteShrinks(t: string, sp: Span, rep: string)
    requires sp.start < sp.end <= |t| && IsMarkup(t[sp.start])
    requires MarkupCount(rep) == 0
    ensures MarkupCount(Substitute(t, sp, rep)) < MarkupCount(t)
  {
    assert t == t[..sp.start] + t[sp.start..sp.end] + t[sp.end..];
    MarkupCountAppend(t[..sp.start] + t[sp.start..sp.end], t[sp.end..]);
    MarkupCountAppend(t[..sp.start], t[sp.start..sp.end]);
    MarkupCountAppend(t[..sp.start] + rep, t[sp.end..]);
    MarkupCountAppend(t[..sp.start], rep);
  }

  /** One extraction step: the text before it and the span that was cut out. */
  datatype Step = Step(before: string, span: Span)

  /** The result of the extraction loops: the final text, the objects in the
      order they were extracted, and the steps that produced them. */
  datatype Extraction = Extraction(text: string, objs: seq<string>, steps: seq<Step>)

  /** Both loops of `replace_latex_objects`: each pattern in turn, replacing
      its leftmost match until it no longer matches, numbering objects from
      `count`. */
  function ExtractAll(t: string, mathCode: string, ps: seq<Pattern>, count: nat): (r: Extraction)
    requires ValidMathCode(mathCode) && forall k :: 0 <= k < |ps| ==> WellFormed(ps[k])
    decreases |ps|, MarkupCount(t)
  {
    if |ps| == 0 then Extraction(t, [], [])
    else
      match Search(ps[0], t, 0)
      case None => ExtractAll(t, mathCode, ps[1..], count)
      case Some(sp) =>
        PlaceholderMarkupFree(mathCode, count);
        SubstituteShrinks(t, sp, Padded(VariableCode(mathCode, count)));
        var rest := ExtractAll(Substitute(t, sp, Padded(VariableCode(mathCode, count))), mathCode, ps, count + 1);
        Extraction(rest.text, [Padded(t[sp.start..sp.end])] + rest.objs, [Step(t, sp)] + rest.steps)
  }

  /** What the extraction loop keeps: the objects taken so far followed by
      those still to come from the current text and patterns are all of them,
      and the text still to come ends as the whole extraction does. */
  predicate ExtractInv(text: string, mathCode: string, patterns: seq<Pattern>, i: nat, t: string, objs: seq<string>)
    requires ValidMathCode(mathCode) && forall k :: 0 <= k < |patterns| ==> WellFormed(patterns[k])
    requires i <= |patterns|
  {
    var r := ExtractAll(t, mathCode, patterns[i..], |objs|);
    ExtractAll(text, mathCode, patterns, 0).text == r.text &&
    ExtractAll(text, mathCode, patterns, 0).objs == objs + r.objs
  }

  /** A pattern without a match hands over to the next one. */
  lemma ExtractInvSkip(text: string, mathCode: string, patterns: seq<Pattern>, i: nat, t: string, objs: seq<string>)
    requires ValidMathCode(mathCode) && forall k :: 0 <= k < |patterns| ==> WellFormed(patterns[k])
    requires i < |patterns| && ExtractInv(text, mathCode, patterns, i, t, objs)
    requires Search(patterns[i], t, 0).None?
    ensures ExtractInv(text, mathCode, patterns, i + 1, t, objs)
  {
    assert patterns[i..][0] == patterns[i];
    assert patterns[i..][1..] == patterns[i + 1..];
  }

  /** A match of the current pattern extracts one object and keeps the pattern. */
  lemma ExtractInvHit(text: string, mathCode: string, patterns: seq<Pattern>, i: nat, t: string, objs: seq<string>, sp: Span)
    requires ValidMathCode(mathCode) && forall k :: 0 <= k < |patterns| ==> WellFormed(patterns[k])
    requires i < |patterns| && ExtractInv(text, mathCode, patterns, i, t, objs)
    requires Search(patterns[i], t, 0) == Some(sp)
    ensures sp.start <= sp.end <= |t|
    ensures ExtractInv(text, mathCode, patterns, i, Substitute(t, sp, Padded(VariableCode(mathCode, |objs|))), objs + [Padded(t[sp.start..sp.end])])
  {
    var ps := patterns[i..];
    var c := |objs|;
    assert ps[0] == patterns[i];
    var rep := Padded(VariableCode(mathCode, c));
    var x := Padded(t[sp.start..sp.end]);
    var rest := ExtractAll(Substitute(t, sp, rep), mathCode, ps, c + 1);
    assert ExtractAll(t, mathCode, ps, c) == Extraction(rest.text, [x] + rest.objs, [Step(t, sp)] + rest.steps);
    assert |objs + [x]| == c + 1;
    AppendOne(objs, x, rest.objs);
  }

  lemma AppendOne(a: seq<string>, x: string, b: seq<string>)
    ensures a + ([x] + b) == (a + [x]) + b
  {
  }

  /** `modify_before`: prose fixes applied outside placeholders. */
  function ModifyBefore(s: string): string
  {
    ReplaceAll(ReplaceAll(s, "\\pm", "$\\pm$"), "Eq.", "equation")
  }

  /** Prose with neither `\pm` nor `Eq.` is left as it is. */
  lemma ModifyBeforePlain(s: string)
    requires !Contains(s, "\\pm") && !Contains(s, "Eq.")
    ensures ModifyBefore(s) == s
  {
    ReplaceAllAbsent(s, "\\pm", "$\\pm$");
    ReplaceAllAbsent(s, "Eq.", "equation");
  }

  /** `replace_latex_objects(text, brace, commandSimple)` with the patterns
      given in priority order. */
  method ExtractLoop(text: string, mathCode: string, patterns: seq<Pattern>) returns (t: string, objs: seq<string>)
    requires ValidMathCode(mathCode)
    requires forall k :: 0 <= k < |patterns| ==> WellFormed(patterns[k])
    ensures t == ExtractAll(text, mathCode, patterns, 0).text
    ensures objs == ExtractAll(text, mathCode, patterns, 0).objs
  {
    t := text;
    var count := 0;
    var i := 0;
    objs := [];
    while i < |patterns|
      invariant 0 <= i <= |patterns|
      invariant count == |objs|
      invariant ExtractInv(text, mathCode, patterns, i, t, objs)
      decreases |patterns| - i, MarkupCount(t)
    {
      var m := Search(patterns[i], t, 0);
      if m.None? {
        ExtractInvSkip(text, mathCode, patterns, i, t, objs);
        i := i + 1;
      } else {
        var sp := m.value;
        ExtractInvHit(text, mathCode, patterns, i, t, objs, sp);
        var rep := Padded(VariableCode(mathCode, count));
        PlaceholderMarkupFree(mathCode, count);
        SubstituteShrinks(t, sp, rep);
        objs := objs + [Padded(t[sp.start..sp.end])];
        t := Substitute(t, sp, rep);
        count := count + 1;
      }
    }
    assert patterns[i..] == [];
  }

  method ReplaceLatexObjects(text: string, mathCode: string, patterns: seq<Pattern>) returns (out: string, objs: seq<string>)
    requires ValidMathCode(mathCode)
    requires forall k :: 0 <= k < |patterns| ==> WellFormed(patterns[k])
    ensures out == ModifyText(ExtractAll(text, mathCode, patterns, 0).text, mathCode, ModifyBefore)
    ensures objs == ExtractAll(text, mathCode, patterns, 0).objs
  {
    var t;
    t, objs := ExtractLoop(text, mathCode, patterns);
    out := ModifyText(t, mathCode, ModifyBefore);
  }
}
