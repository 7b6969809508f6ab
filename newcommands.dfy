/** `process_newcommands`: macro definitions whose text mentions one of the
    environments or commands the translator treats specially are expanded in the
    document, while the definitions themselves are set aside behind placeholders
    and put back afterwards. */
module Newcommands {
  import opened Wrappers
  import opened Text
  import opened Matchers
  import opened Placeholder
  import opened Rewriters

  /** A macro definition: the whole matched text, the macro name, the argument
      count (0 when not given) and the body inside its outer braces. */
  datatype Definition = Definition(text: string, name: string, nargs: nat, content: string)

  const EnvironmentList: seq<string> :=
    ["abstract", "acknowledgments", "itemize", "enumerate", "description", "list", "proof", "quote", "spacing"]
  const CommandList: seq<string> :=
    ["section", "subsection", "subsubsection", "caption", "subcaption", "footnote", "paragraph"]
  /** The words that make a definition worth expanding. */
  const ReplaceNewcommandList: seq<string> :=
    ["equation", "array", "displaymath", "align", "multiple", "gather", "theorem", "textcolor"]
    + EnvironmentList + CommandList

  // ---------------------------------------------------------------- the pattern

  /** `\\(?:newcommand|def)` at `i`: the index after the keyword. */
  function KeywordAt(s: string, i: nat): (r: Option<nat>)
    requires i <= |s|
    ensures r.Some? ==> i < r.value <= |s| && s[i] == '\\'
    ensures r.Some? ==> OccursAt(s, "\\newcommand", i) || OccursAt(s, "\\def", i)
  {
    if OccursAt(s, "\\newcommand", i) then Some(i + 11)
    else if OccursAt(s, "\\def", i) then Some(i + 4)
    else None
  }

  /** The macro name at `k`, braced as `{\name}` or bare as `\name`: the name and
      the index after it. */
  function MacroNameAt(s: string, k: nat): (r: Option<(string, nat)>)
    requires k <= |s|
    ensures r.Some? ==> k < r.value.1 <= |s| && |r.value.0| > 0
    ensures r.Some? ==> forall c :: 0 <= c < |r.value.0| ==> IsLetter(r.value.0[c])
  {
    if k + 2 < |s| && s[k] == '{' && s[k + 1] == '\\' && IsLetter(s[k + 2]) then
      var l := LettersEnd(s, k + 2);
      if l < |s| && s[l] == '}' then Some((s[k + 2..l], l + 1)) else None
    else if k + 1 < |s| && s[k] == '\\' && IsLetter(s[k + 1]) then
      var l := LettersEnd(s, k + 1);
      Some((s[k + 1..l], l))
    else None
  }

  /** The argument count `[d]` at `b`: its single digit and the index after it. */
  function ArgCountAt(s: string, b: nat): (r: Option<(nat, nat)>)
    requires b <= |s|
    ensures r.Some? ==> r.value.0 < 10 && r.value.1 == b + 3 <= |s|
  {
    if b + 2 < |s| && s[b] == '[' && IsDigit(s[b + 1]) && s[b + 2] == ']' then Some((DigitValue(s[b + 1]), b + 3))
    else None
  }

  /** The optional argument count after the name at `b`, and where the blanks
      before the body end. */
  function CountEnd(s: string, b: nat): (r: (nat, nat))
    requires b <= |s|
    ensures r.0 < 10 && b <= r.1 <= |s|
  {
    match ArgCountAt(s, b)
    case Some((d, a)) => (d, BlanksEnd(s, a))
    case None => (0, b)
  }

  /** The brace group at `cnt.1` closing a definition that started at `i`. */
  function BodyAt(s: string, i: nat, name: string, cnt: (nat, nat)): (r: Option<(nat, Definition)>)
    requires i < cnt.1 <= |s|
    ensures r.Some? ==> i < r.value.0 <= |s| && r.value.1.text == s[i..r.value.0]
    ensures r.Some? ==> r.value.1.name == name && r.value.1.nargs == cnt.0
  {
    match BraceAt(s, cnt.1)
    case None => None
    case Some(e) => Some((e, Definition(s[i..e], name, cnt.0, s[cnt.1 + 1..e - 1])))
  }

  /** A definition at `i`: keyword, blanks, name, blanks, optional count, blanks,
      then a balanced brace group; where it ends and what it defines. */
  function NewcommandAt(s: string, i: nat): (r: Option<(nat, Definition)>)
    requires i <= |s|
    ensures r.Some? ==> i < r.value.0 <= |s| && r.value.1.text == s[i..r.value.0]
    ensures r.Some? ==> |r.value.1.name| > 0 && r.value.1.nargs < 10
  {
    match KeywordAt(s, i)
    case None => None
    case Some(j) =>
      match MacroNameAt(s, BlanksEnd(s, j))
      case None => None
      case Some(named) => BodyAt(s, i, named.0, CountEnd(s, BlanksEnd(s, named.1)))
  }

  /** The outcome of `NewcommandAt` at every position, computed once. */
  predicate ValidTable(s: string, ms: seq<Option<(nat, Definition)>>)
  {
    && |ms| == |s| + 1
    && forall j :: 0 <= j < |ms| && ms[j].Some? ==> j < ms[j].value.0 <= |s| && ms[j].value.1.text == s[j..ms[j].value.0]
  }

  function NewcommandTable(s: string): (ms: seq<Option<(nat, Definition)>>)
    ensures ValidTable(s, ms)
  {
    seq(|s| + 1, j requires 0 <= j <= |s| => NewcommandAt(s, j))
  }

  /** `finditer` from `i`: the matches left to right, each search resuming after the
      previous match. */
  function CollectFrom(s: string, ms: seq<Option<(nat, Definition)>>, i: nat): (defs: seq<Definition>)
    requires ValidTable(s, ms) && i <= |s|
    ensures forall d :: d in defs ==> |d.text| > 0
    decreases |s| - i
  {
    if i == |s| then []
    else if ms[i].Some? then [ms[i].value.1] + CollectFrom(s, ms, ms[i].value.0)
    else CollectFrom(s, ms, i + 1)
  }

  /** Every definition in the document, in order. */
  function Definitions(s: string): (defs: seq<Definition>)
    ensures forall d :: d in defs ==> |d.text| > 0
  {
    CollectFrom(s, NewcommandTable(s), 0)
  }

  /** Every collected definition is a piece of the text. */
  lemma {:induction false} CollectFromOccurs(s: string, ms: seq<Option<(nat, Definition)>>, i: nat)
    requires ValidTable(s, ms) && i <= |s|
    ensures forall d :: d in CollectFrom(s, ms, i) ==> Contains(s, d.text)
    decreases |s| - i
  {
    if i < |s| {
      if ms[i].Some? {
        var e := ms[i].value.0;
        CollectFromOccurs(s, ms, e);
        assert OccursAt(s, ms[i].value.1.text, i);
        assert CollectFrom(s, ms, i) == [ms[i].value.1] + CollectFrom(s, ms, e);
      } else {
        CollectFromOccurs(s, ms, i + 1);
      }
    }
  }

  /** The definitions `finditer` reports are pieces of the document, and none is empty. */
  lemma DefinitionsOccur(s: string)
    ensures forall d :: d in Definitions(s) ==> |d.text| > 0 && Contains(s, d.text)
  {
    CollectFromOccurs(s, NewcommandTable(s), 0);
  }

  // ---------------------------------------------------------------- the rewrite

  /** Whether the definition's text mentions one of the listed words. */
  predicate Selected(d: Definition)
  {
    exists w :: 0 <= w < |ReplaceNewcommandList| && Contains(d.text, ReplaceNewcommandList[w])
  }

  /** The placeholder a set-aside definition waits behind. */
  function NewcommandCode(mathCode: string, count: nat): (r: string)
    ensures |r| > 0
  {
    mathCode + "_REPLACE" + DecimalString(count) + "_NEWCOMMAND"
  }

  /** The first loop over the first `k` definitions: the text so far and the
      definitions set aside, in order. */
  function SetAside(latex: string, defs: seq<Definition>, mathCode: string, k: nat): (r: (string, seq<string>))
    requires k <= |defs| && forall d :: d in defs ==> |d.text| > 0
  {
    if k == 0 then (latex, [])
    else
      var (t, full) := SetAside(latex, defs, mathCode, k - 1);
      var d := defs[k - 1];
      if Selected(d) then
        (ReplaceNewcommand(d.name, d.nargs, d.content, ReplaceAll(t, d.text, NewcommandCode(mathCode, |full|))), full + [d.text])
      else (t, full)
  }

  /** The second loop: the first `k` placeholders replaced by their definitions. */
  function PutBack(t: string, full: seq<string>, mathCode: string, k: nat): string
    requires k <= |full|
  {
    if k == 0 then t else ReplaceAll(PutBack(t, full, mathCode, k - 1), NewcommandCode(mathCode, k - 1), full[k - 1])
  }

  /** The inner loop over the listed words. */
  method Mentions(d: Definition) returns (found: bool)
    ensures found == Selected(d)
  {
    found := false;
    var w := 0;
    while w < |ReplaceNewcommandList|
      invariant 0 <= w <= |ReplaceNewcommandList|
      invariant found <==> exists v :: 0 <= v < w && Contains(d.text, ReplaceNewcommandList[v])
    {
      if Contains(d.text, ReplaceNewcommandList[w]) {
        found := true;
      }
      w := w + 1;
    }
  }

  /** The first loop of `process_newcommands`: selected definitions are set aside
      behind numbered placeholders and their macros expanded in the text. */
  method SetAsideLoop(latex: string, defs: seq<Definition>, mathCode: string) returns (text: string, full: seq<string>)
    requires forall d :: d in defs ==> |d.text| > 0
    ensures (text, full) == SetAside(latex, defs, mathCode, |defs|)
  {
    text := latex;
    full := [];
    var count := 0;
    var k := 0;
    while k < |defs|
      invariant 0 <= k <= |defs|
      invariant (text, full) == SetAside(latex, defs, mathCode, k) && count == |full|
    {
      var d := defs[k];
      var needReplace := Mentions(d);
      if needReplace {
        text := ReplaceAll(text, d.text, NewcommandCode(mathCode, count));
        full := full + [d.text];
        text := ReplaceNewcommand(d.name, d.nargs, d.content, text);
        count := count + 1;
      }
      k := k + 1;
    }
  }

  /** The second loop: every placeholder replaced by the definition it stands for. */
  method PutBackLoop(text: string, full: seq<string>, mathCode: string) returns (out: string)
    ensures out == PutBack(text, full, mathCode, |full|)
  {
    out := text;
    var i := 0;
    while i < |full|
      invariant 0 <= i <= |full|
      invariant out == PutBack(text, full, mathCode, i)
    {
      out := ReplaceAll(out, NewcommandCode(mathCode, i), full[i]);
      i := i + 1;
    }
  }

  /** `process_newcommands(latex)`. */
  method ProcessNewcommands(latex: string, mathCode: string) returns (out: string)
    ensures var defs := Definitions(latex);
      var (t, full) := SetAside(latex, defs, mathCode, |defs|);
      out == PutBack(t, full, mathCode, |full|)
  {
    var defs := Definitions(latex);
    var text, full := SetAsideLoop(latex, defs, mathCode);
    out := PutBackLoop(text, full, mathCode);
  }

  /** Definitions that mention none of the listed words are left alone: when no
      definition is selected the document comes back unchanged. */
  lemma {:induction false} NothingSelectedAside(latex: string, defs: seq<Definition>, mathCode: string, k: nat)
    requires k <= |defs| && forall d :: d in defs ==> |d.text| > 0
    requires forall j :: 0 <= j < k ==> !Selected(defs[j])
    ensures SetAside(latex, defs, mathCode, k) == (latex, [])
  {
    if k > 0 {
      NothingSelectedAside(latex, defs, mathCode, k - 1);
    }
  }

  lemma NothingSelectedUnchanged(latex: string, mathCode: string)
    requires forall d :: d in Definitions(latex) ==> !Selected(d)
    ensures var defs := Definitions(latex);
      var (t, full) := SetAside(latex, defs, mathCode, |defs|);
      PutBack(t, full, mathCode, |full|) == latex
  {
    var defs := Definitions(latex);
    NothingSelectedAside(latex, defs, mathCode, |defs|);
  }

  // ---------------------------------------------------------------- round trip

  /** The canonical spelling `\newcommand{\name}[n]{content}` of a definition. */
  function Render(name: string, nargs: nat, content: string): string
    requires nargs < 10
  {
    "\\newcommand{\\" + name + "}[" + [DigitChar(nargs)] + "]{" + content + "}"
  }

  /** Where the letters of a name followed by a non-letter stop. */
  lemma LettersEndAt(s: string, j: nat, l: nat)
    requires j <= l < |s| && !IsLetter(s[l]) && forall c :: j <= c < l ==> IsLetter(s[c])
    ensures LettersEnd(s, j) == l
  {
  }

  /** The characters of a rendered header, one by one. */
  lemma RenderChars(name: string, dc: char, tail: string)
    ensures var s := "\\newcommand{\\" + name + "}[" + [dc] + "]{" + tail;
      && |s| == |name| + 18 + |tail| && s[..11] == "\\newcommand"
      && s[11] == '{' && s[12] == '\\' && s[13..13 + |name|] == name && s[13 + |name|] == '}'
      && s[14 + |name|] == '[' && s[15 + |name|] == dc && s[16 + |name|] == ']' && s[17 + |name|] == '{'
      && s[18 + |name|..] == tail
  {
    var s := "\\newcommand{\\" + name + "}[" + [dc] + "]{" + tail;
    var rest := "}[" + [dc] + "]{" + tail;
    assert s == "\\newcommand" + "{\\" + name + rest;
    assert s[13 + |name|..] == rest;
  }

  /** The header `\newcommand{\name}[n]{` of a rendered definition, as the scanners read it. */
  lemma RenderHead(s: string, name: string, nargs: nat)
    requires nargs < 10 && |name| > 0 && forall c :: 0 <= c < |name| ==> IsLetter(name[c])
    requires |name| + 18 <= |s| && s[..11] == "\\newcommand"
    requires s[11] == '{' && s[12] == '\\' && s[13..13 + |name|] == name && s[13 + |name|] == '}'
    requires s[14 + |name|] == '[' && s[15 + |name|] == DigitChar(nargs) && s[16 + |name|] == ']' && s[17 + |name|] == '{'
    ensures KeywordAt(s, 0) == Some(11) && BlanksEnd(s, 11) == 11
    ensures MacroNameAt(s, 11) == Some((name, |name| + 14))
    ensures BlanksEnd(s, |name| + 14) == |name| + 14
    ensures ArgCountAt(s, |name| + 14) == Some((nargs, |name| + 17))
    ensures BlanksEnd(s, |name| + 17) == |name| + 17
  {
    assert OccursAt(s, "\\newcommand", 0);
    forall c | 13 <= c < 13 + |name| ensures IsLetter(s[c]) {
      assert s[c] == s[13..13 + |name|][c - 13] == name[c - 13];
    }
    LettersEndAt(s, 13, 13 + |name|);
    DigitRoundTrip(nargs);
  }

  /** A definition laid out character by character as the canonical spelling is
      read back with its name, count and body. */
  lemma ParseLayout(s: string, name: string, nargs: nat, content: string)
    requires nargs < 10 && |name| > 0 && forall c :: 0 <= c < |name| ==> IsLetter(name[c])
    requires Balanced(content)
    requires |name| + 19 + |content| <= |s| && s[..11] == "\\newcommand"
    requires s[11] == '{' && s[12] == '\\' && s[13..13 + |name|] == name && s[13 + |name|] == '}'
    requires s[14 + |name|] == '[' && s[15 + |name|] == DigitChar(nargs) && s[16 + |name|] == ']' && s[17 + |name|] == '{'
    requires s[18 + |name|..18 + |name| + |content|] == content && s[18 + |name| + |content|] == '}'
    ensures var n := |name| + 19 + |content|;
      NewcommandAt(s, 0) == Some((n, Definition(s[..n], name, nargs, content)))
  {
    var q := |name| + 17;
    RenderHead(s, name, nargs);
    BraceAroundBalanced(s, q, content);
    assert CountEnd(s, |name| + 14) == (nargs, q);
    assert NewcommandAt(s, 0) == BodyAt(s, 0, name, (nargs, q));
    var n := |name| + 19 + |content|;
    assert BraceAt(s, q) == Some(n);
    assert s[q + 1..n - 1] == content;
  }

  /** Parsing the canonical spelling gives back the name, the count and the body,
      whatever follows it. */
  lemma ParseRender(name: string, nargs: nat, content: string, rest: string)
    requires nargs < 10 && |name| > 0 && forall c :: 0 <= c < |name| ==> IsLetter(name[c])
    requires Balanced(content)
    ensures var text := Render(name, nargs, content);
      NewcommandAt(text + rest, 0) == Some((|text|, Definition(text, name, nargs, content)))
  {
    var text := Render(name, nargs, content);
    var s := text + rest;
    var tail := content + "}" + rest;
    assert s == "\\newcommand{\\" + name + "}[" + [DigitChar(nargs)] + "]{" + tail;
    RenderChars(name, DigitChar(nargs), tail);
    assert s[18 + |name|..] == tail;
    assert s[18 + |name|..18 + |name| + |content|] == content;
    ParseLayout(s, name, nargs, content);
    assert s[..|text|] == text;
  }

  // ---------------------------------------------------------------- one definition, one use

  /** `finditer` finds nothing from `i` on where no position matches. */
  lemma {:induction false} CollectNone(s: string, ms: seq<Option<(nat, Definition)>>, i: nat)
    requires ValidTable(s, ms) && i <= |s|
    requires forall j :: i <= j < |s| ==> ms[j].None?
    ensures CollectFrom(s, ms, i) == []
    decreases |s| - i
  {
    if i < |s| {
      CollectNone(s, ms, i + 1);
    }
  }

  /** A tail that starts like no definition and has no backslash past its first
      character: no definition starts inside it. */
  lemma NoDefinitionIn(s: string, n: nat, u: string)
    requires n <= |s| && s[n..] == u
    requires forall k :: 0 < k < |u| ==> u[k] != '\\'
    requires !OccursAt(u, "\\newcommand", 0) && !OccursAt(u, "\\def", 0)
    ensures forall j :: n <= j < |s| ==> NewcommandAt(s, j).None?
  {
    forall j | n <= j < |s| ensures KeywordAt(s, j).None? {
      assert s[j] == u[j - n];
      if j == n {
        assert !OccursAt(s, "\\newcommand", j) by {
          if j + 11 <= |s| {
            assert s[j..j + 11] == u[..11];
          }
        }
        assert !OccursAt(s, "\\def", j) by {
          if j + 4 <= |s| {
            assert s[j..j + 4] == u[..4];
          }
        }
      } else {
        assert !OccursAt(s, "\\newcommand", j) by {
          if j + 11 <= |s| {
            assert s[j..j + 11][0] == s[j];
          }
        }
        assert !OccursAt(s, "\\def", j) by {
          if j + 4 <= |s| {
            assert s[j..j + 4][0] == s[j];
          }
        }
      }
    }
  }

  /** A one-argument use `\name{x}` holds the first character of no placeholder
      and no backslash past its first character. */
  lemma InvocationChars(name: string, x: string)
    requires forall c :: 0 <= c < |name| ==> IsLetter(name[c])
    requires '\\' !in x
    ensures var u := Invocation(name, x); forall k :: 0 < k < |u| ==> u[k] != '\\'
  {
    var u := Invocation(name, x);
    forall k | 0 < k < |u| ensures u[k] != '\\' {
      if k < 1 + |name| {
        assert u[k] == u[1..1 + |name|][k - 1] == name[k - 1];
      } else if 2 + |name| <= k < 2 + |name| + |x| {
        assert u[k] == u[2 + |name|..2 + |name| + |x|][k - 2 - |name|] == x[k - 2 - |name|];
      }
    }
  }

  /** A document made of one rendered definition and one use of its macro holds
      that definition and no other. */
  lemma DefinitionsOneUse(name: string, content: string, x: string)
    requires |name| > 0 && forall c :: 0 <= c < |name| ==> IsLetter(name[c])
    requires Balanced(content) && '\\' !in x
    requires !OccursAt(Invocation(name, x), "\\newcommand", 0) && !OccursAt(Invocation(name, x), "\\def", 0)
    ensures var text := Render(name, 1, content);
      Definitions(text + Invocation(name, x)) == [Definition(text, name, 1, content)]
  {
    var text := Render(name, 1, content);
    var u := Invocation(name, x);
    var s := text + u;
    var ms := NewcommandTable(s);
    ParseRender(name, 1, content, u);
    InvocationChars(name, x);
    assert s[|text|..] == u;
    NoDefinitionIn(s, |text|, u);
    CollectNone(s, ms, |text|);
  }

  /** A placeholder in front of a piece that holds its first character nowhere is
      replaced by the text it stands for. */
  lemma PutBackFront(p: string, e: string, d: string)
    requires |p| > 0 && p[0] !in e
    ensures ReplaceAll(p + e, p, d) == d + e
  {
    var s := p + e;
    assert s[..|p|] == p && s[|p|..] == e;
    assert !Contains(e, p) by {
      forall i | 0 <= i <= |e| ensures !OccursAt(e, p, i) {
        if i + |p| <= |e| {
          assert e[i..i + |p|][0] == e[i];
        }
      }
    }
    ReplaceAllAbsent(e, p, d);
  }

  /** The first loop over a single selected definition. */
  lemma SetAsideOne(latex: string, d: Definition, mathCode: string)
    requires |d.text| > 0 && Selected(d)
    ensures SetAside(latex, [d], mathCode, 1)
      == (ReplaceNewcommand(d.name, d.nargs, d.content, ReplaceAll(latex, d.text, NewcommandCode(mathCode, 0))), [d.text])
  {
    var prev := SetAside(latex, [d], mathCode, 0);
    assert prev == (latex, []);
    assert |prev.1| == 0 && prev.1 + [d.text] == [d.text];
    assert [d][1 - 1] == d;
  }

  /** Both loops on a document holding one selected definition, once its
      expansion is known: the placeholder gives way to the definition again. */
  lemma ProcessOneDefinition(latex: string, d: Definition, e: string, mathCode: string)
    requires Definitions(latex) == [d] && Selected(d)
    requires |mathCode| > 0 && mathCode[0] !in e
    requires ReplaceNewcommand(d.name, d.nargs, d.content, ReplaceAll(latex, d.text, NewcommandCode(mathCode, 0)))
      == NewcommandCode(mathCode, 0) + e
    ensures var defs := Definitions(latex);
      var (t, full) := SetAside(latex, defs, mathCode, |defs|);
      PutBack(t, full, mathCode, |full|) == d.text + e
  {
    var p := NewcommandCode(mathCode, 0);
    assert d in Definitions(latex);
    SetAsideOne(latex, d, mathCode);
    assert p[0] == mathCode[0];
    PutBackFront(p, e, d.text);
    assert PutBack(p + e, [d.text], mathCode, 0) == p + e;
  }

  /** A definition in front of a text with no backslash past its first character:
      the definition, found only there, gives way to its placeholder. */
  lemma SetAsideFront(d: string, u: string, p: string, m: nat)
    requires 0 < m < |d| && d[m] == '\\'
    requires forall k :: 0 < k < |u| ==> u[k] != '\\'
    ensures ReplaceAll(d + u, d, p) == p + u
  {
    var s := d + u;
    assert s[..|d|] == d && s[|d|..] == u;
    assert !Contains(u, d) by {
      forall i | 0 <= i <= |u| ensures !OccursAt(u, d, i) {
        if i + |d| <= |u| {
          assert u[i..i + |d|][m] == u[i + m];
        }
      }
    }
    ReplaceAllAbsent(u, d, p);
  }

  /** Filling in one argument brings in only the argument's characters and blanks. */
  lemma ExpandOneChars(template: string, x: string, c: char)
    requires c !in template && c !in x && c != ' '
    ensures c !in Expand(template, [x], 1)
  {
    assert DecimalString(1) == "1";
    assert "#" + DecimalString(1) == "#1" && [x][0] == x;
    assert Expand(template, [x], 0) == template;
    assert Expand(template, [x], 1) == ReplaceAll(template, "#1", " " + x + " ");
    assert c !in " " + x + " ";
    ReplaceAllChars(template, "#1", " " + x + " ", c);
  }

  /** The whole of `process_newcommands` on a document made of one selected
      one-argument definition followed by one use of its macro: the definition is
      put back as it was and the use is expanded, its argument in place of `#1`.
      The placeholder's first character must occur in neither the body nor the
      argument, and be no blank. */
  lemma ProcessNewcommandsOneUse(name: string, content: string, x: string, mathCode: string)
    requires |name| > 0 && forall c :: 0 <= c < |name| ==> IsLetter(name[c])
    requires Balanced(content) && Balanced(x) && '\\' !in x
    requires !OccursAt(Invocation(name, x), "\\newcommand", 0) && !OccursAt(Invocation(name, x), "\\def", 0)
    requires Selected(Definition(Render(name, 1, content), name, 1, content))
    requires |mathCode| > 0 && '\\' !in mathCode
    requires mathCode[0] !in content && mathCode[0] !in x && mathCode[0] != ' '
    ensures var latex := Render(name, 1, content) + Invocation(name, x);
      var defs := Definitions(latex);
      var (t, full) := SetAside(latex, defs, mathCode, |defs|);
      PutBack(t, full, mathCode, |full|) == Render(name, 1, content) + Expand(content, [x], 1)
  {
    var text := Render(name, 1, content);
    var latex := text + Invocation(name, x);
    var d := Definition(text, name, 1, content);
    var e := Expand(content, [x], 1);
    assert Definitions(latex) == [d] by {
      DefinitionsOneUse(name, content, x);
    }
    assert ReplaceNewcommand(name, 1, content, ReplaceAll(latex, text, NewcommandCode(mathCode, 0)))
      == NewcommandCode(mathCode, 0) + e by {
      SetAsideUse(name, content, x, mathCode);
    }
    assert mathCode[0] !in e by {
      ExpandOneChars(content, x, mathCode[0]);
    }
    ProcessOneDefinition(latex, d, e, mathCode);
  }

  /** The first loop on one definition followed by one use: the definition gives way
      to its placeholder and the use is expanded. */
  lemma SetAsideUse(name: string, content: string, x: string, mathCode: string)
    requires |name| > 0 && forall c :: 0 <= c < |name| ==> IsLetter(name[c])
    requires Balanced(x) && '\\' !in x && '\\' !in mathCode
    ensures var text := Render(name, 1, content); var p := NewcommandCode(mathCode, 0);
      ReplaceNewcommand(name, 1, content, ReplaceAll(text + Invocation(name, x), text, p))
        == p + Expand(content, [x], 1)
  {
    var text := Render(name, 1, content);
    var u := Invocation(name, x);
    var p := NewcommandCode(mathCode, 0);
    assert ReplaceAll(text + u, text, p) == p + u by {
      InvocationChars(name, x);
      assert text[12] == '\\';
      SetAsideFront(text, u, p, 12);
    }
    assert '\\' !in p by {
      assert DecimalString(0) == "0";
    }
    var b: string := "";
    assert p + u + b == p + u && p + Expand(content, [x], 1) + b == p + Expand(content, [x], 1);
    ReplaceNewcommandOne(p, name, x, b, content);
  }
}
