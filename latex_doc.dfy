/** Whole-document transforms of `process_latex.py`: the preamble/body split,
    the completeness test, macro insertion, blank-line removal, theorem
    names, line combining and comment removal. */
module LatexDoc {
  import opened Wrappers
  import opened Text
  import opened Matchers

  const BeginDocument: string := "\\begin{document}"
  const EndDocument: string := "\\end{document}"

  // ---------------------------------------------------------------------
  // `split_latex_document`

  /** The three parts, in the order the source returns them. */
  datatype DocumentParts = DocumentParts(body: string, pre: string, post: string)

  /** The source's `assert False, "latex is not complete"`. */
  datatype SplitError = NotComplete

  /** Python's `text[a:b]` for `0 <= a`, `b <= len(text)`: empty when `b < a`. */
  function Slice(text: string, a: nat, b: nat): string
    requires a <= |text| && b <= |text|
  {
    if a <= b then text[a..b] else ""
  }

  /** `split_latex_document(text, beginCode, endCode)`. */
  function SplitLatexDocument(text: string, beginCode: string, endCode: string): Result<DocumentParts, SplitError>
  {
    var beginDocIndex := Find(text, beginCode, 0);
    var endDocIndex := RFind(text, endCode, |text|);
    if beginDocIndex == -1 || endDocIndex == -1 || endDocIndex <= beginDocIndex then Err(NotComplete)
    else
      var cut := beginDocIndex + |beginCode|;
      Ok(DocumentParts(Slice(text, cut, endDocIndex), text[..cut], text[endDocIndex..]))
  }

  /** The split fails exactly when a code is missing or the last end code
      does not come after the first begin code. When it succeeds, the
      preamble ends with the first begin code, the postamble starts with
      the last end code, and, when the two codes do not overlap, the three
      parts put back together give the text. */
  lemma SplitLatexDocumentSpec(text: string, beginCode: string, endCode: string)
    ensures var r := SplitLatexDocument(text, beginCode, endCode);
      var b := Find(text, beginCode, 0);
      var e := RFind(text, endCode, |text|);
      (r.Err? <==> (b == -1 || e == -1 || e <= b)) &&
      (r.Ok? ==>
        (forall i :: 0 <= i < b ==> !OccursAt(text, beginCode, i)) &&
        OccursAt(text, beginCode, b) && r.value.pre == text[..b + |beginCode|] &&
        (forall i :: e < i <= |text| ==> !OccursAt(text, endCode, i)) &&
        OccursAt(text, endCode, e) && r.value.post == text[e..] &&
        (b + |beginCode| <= e ==> r.value.pre + r.value.body + r.value.post == text))
  {
    var r := SplitLatexDocument(text, beginCode, endCode);
    var b := Find(text, beginCode, 0);
    var e := RFind(text, endCode, |text|);
    if r.Ok? && b + |beginCode| <= e {
      assert r.value == DocumentParts(text[b + |beginCode|..e], text[..b + |beginCode|], text[e..]);
      ThreePieces(text, b + |beginCode|, e);
    }
  }

  lemma ThreePieces(text: string, a: nat, e: nat)
    requires a <= e <= |text|
    ensures text[..a] + text[a..e] + text[e..] == text
  {
  }

  /** With the document codes the two can never overlap: an end code
      starts with a backslash, and the begin code has none after its
      first character. So a successful split always gives the text back. */
  lemma SplitDocumentRoundTrip(text: string)
    requires SplitLatexDocument(text, BeginDocument, EndDocument).Ok?
    ensures var r := SplitLatexDocument(text, BeginDocument, EndDocument).value;
      r.pre + r.body + r.post == text
  {
    var b := Find(text, BeginDocument, 0);
    var e := RFind(text, EndDocument, |text|);
    SplitLatexDocumentSpec(text, BeginDocument, EndDocument);
    NoOverlap(text, b, e);
  }

  /** An end tag cannot start inside a begin tag. */
  lemma NoOverlap(text: string, b: nat, e: nat)
    requires OccursAt(text, BeginDocument, b) && OccursAt(text, EndDocument, e) && b < e
    ensures b + |BeginDocument| <= e
  {
    var tail := BeginDocument[1..];
    assert tail == "begin{document}";
    assert '\\' !in tail;
    assert text[e] == '\\' by { assert text[e..e + |EndDocument|] == EndDocument; }
  }

  // ---------------------------------------------------------------------
  // The declaration `\\document(class|style)(\[.*?\])?\{(.*?)\}`.

  /** A declaration starting at `i`: the index just past its closing
      brace. With the options group, the lazy scan stops at the first `]`
      directly followed by `{`; a `}` after it is then needed, which a later
      `]{` could not supply either. */
  function DeclarationAt(s: string, i: nat): (r: Option<nat>)
    requires i <= |s|
    ensures r.Some? ==> i + 14 < r.value <= |s| && s[r.value - 1] == '}'
  {
    if OccursAt(s, "\\documentclass", i) || OccursAt(s, "\\documentstyle", i) then
      var j := i + 14;
      if j < |s| && s[j] == '{' then
        var c := Find(s, "}", j + 1);
        if c == -1 then None else Some(c + 1)
      else if j < |s| && s[j] == '[' then
        var k := Find(s, "]{", j + 1);
        if k == -1 then None
        else
          var c := Find(s, "}", k + 2);
          if c == -1 then None else Some(c + 1)
      else None
    else None
  }

  function Declarations(s: string): (ds: seq<Option<nat>>)
    ensures |ds| == |s| + 1
  {
    seq(|s| + 1, q requires 0 <= q <= |s| => DeclarationAt(s, q))
  }

  /** `documentclassPattern.search(text)`: the leftmost declaration. */
  function SearchDeclaration(s: string): (r: Option<Span>)
    ensures r.Some? ==> r.value.start + 14 < r.value.end <= |s|
  {
    var ds := Declarations(s);
    match FirstSome(ds, 0)
    case None => None
    case Some(q) => Some(Span(q, ds[q].value))
  }

  /** The declaration found is the leftmost one, with its own end. */
  lemma SearchDeclarationSpec(s: string)
    ensures var r := SearchDeclaration(s);
      (r.Some? ==> DeclarationAt(s, r.value.start) == Some(r.value.end)) &&
      (r.Some? ==> forall q :: 0 <= q < r.value.start ==> DeclarationAt(s, q).None?) &&
      (r.None? ==> forall q :: 0 <= q <= |s| ==> DeclarationAt(s, q).None?)
  {
    var ds := Declarations(s);
    FirstSomeSpec(ds, 0);
    forall q | 0 <= q <= |s| ensures ds[q] == DeclarationAt(s, q) { }
  }

  /** `is_complete(latexCode)` as written. */
  predicate IsComplete(latex: string)
  {
    var decl := SearchDeclaration(latex);
    var beginIndex := Find(latex, BeginDocument, 0);
    var endStart := Find(latex, EndDocument, 0);
    decl.Some? && beginIndex != -1 && endStart != -1 &&
    !(beginIndex < decl.value.end || endStart + |EndDocument| < beginIndex)
  }

  /** The order test as evidently intended: the first end tag must start
      after the first begin tag. */
  predicate IsCompleteStrict(latex: string)
  {
    var decl := SearchDeclaration(latex);
    var beginIndex := Find(latex, BeginDocument, 0);
    var endStart := Find(latex, EndDocument, 0);
    decl.Some? && beginIndex != -1 && endStart != -1 &&
    !(beginIndex < decl.value.end || endStart <= beginIndex)
  }

  /** `find` reports -1 exactly when the pattern does not occur. */
  lemma FindContains(s: string, p: string)
    ensures Find(s, p, 0) != -1 <==> Contains(s, p)
  {
    if Contains(s, p) {
      var i :| 0 <= i <= |s| && OccursAt(s, p, i);
    }
  }

  /** `is_complete` holds exactly when a declaration, a begin tag and an end
      tag are all present, the first begin tag starts no earlier than the
      first declaration ends, and the first end tag does not end before the
      first begin tag starts. */
  lemma IsCompleteSpec(latex: string)
    ensures IsComplete(latex) <==>
      SearchDeclaration(latex).Some? && Contains(latex, BeginDocument) && Contains(latex, EndDocument) &&
      Find(latex, BeginDocument, 0) >= SearchDeclaration(latex).value.end &&
      Find(latex, EndDocument, 0) + |EndDocument| >= Find(latex, BeginDocument, 0)
  {
    FindContains(latex, BeginDocument);
    FindContains(latex, EndDocument);
  }

  /** The strict test guarantees that `split_latex_document` succeeds with the
      document codes. */
  lemma IsCompleteStrictSplits(latex: string)
    requires IsCompleteStrict(latex)
    ensures SplitLatexDocument(latex, BeginDocument, EndDocument).Ok?
  {
    var f := Find(latex, EndDocument, 0);
    var e := RFind(latex, EndDocument, |latex|);
    assert OccursAt(latex, EndDocument, f);
    assert e >= f;
  }

  /** A document whose only end tag ends right where its begin tag starts. */
  const EndBeforeBegin: string := Declaration + EndDocument + BeginDocument

  lemma EndBeforeBeginDeclaration()
    ensures SearchDeclaration(EndBeforeBegin) == Some(Span(0, 16))
  {
    var t := EndBeforeBegin;
    assert t[..14] == "\\documentclass" && t[14] == '{' && t[15] == '}';
    assert Find(t, "}", 15) == 15 by { assert t[15..16] == "}"; }
    assert DeclarationAt(t, 0) == Some(16);
    assert Declarations(t)[0] == Some(16);
  }

  const Declaration: string := "\\documentclass{}"

  /** The document's backslashes sit at 0, 16 and 30. */
  lemma EndBeforeBeginBackslashes(k: nat)
    requires k < |EndBeforeBegin|
    ensures EndBeforeBegin[k] == '\\' ==> k == 0 || k == 16 || k == 30
  {
    if k < 16 {
      assert EndBeforeBegin[k] == Declaration[k];
    } else if k < 30 {
      assert EndBeforeBegin[k] == EndDocument[k - 16];
    } else {
      assert EndBeforeBegin[k] == BeginDocument[k - 30];
    }
  }

  /** An occurrence starts with the pattern's first two characters. */
  lemma OccursAtHead(s: string, p: string, i: nat)
    requires |p| > 1
    ensures OccursAt(s, p, i) ==> s[i] == p[0] && s[i + 1] == p[1]
  {
    if OccursAt(s, p, i) {
      assert s[i..i + |p|][0] == p[0] && s[i..i + |p|][1] == p[1];
    }
  }

  /** Neither tag occurs at `k` unless `k` is the position of a backslash
   *  followed by the tag's second letter. */
  lemma EndBeforeBeginNoTag(p: string, k: nat)
    requires p == BeginDocument || p == EndDocument
    requires k != 16 && k != 30
    ensures !OccursAt(EndBeforeBegin, p, k)
  {
    var t := EndBeforeBegin;
    OccursAtHead(t, p, k);
    if k < |t| {
      EndBeforeBeginBackslashes(k);
    }
    assert t[1] == Declaration[1] == 'd';
  }

  lemma EndBeforeBeginBegin()
    ensures Find(EndBeforeBegin, BeginDocument, 0) == 30
  {
    var t := EndBeforeBegin;
    assert t[30..46] == BeginDocument;
    assert OccursAt(t, BeginDocument, 30);
    assert !OccursAt(t, BeginDocument, 16) by {
      OccursAtHead(t, BeginDocument, 16);
      assert t[17] == 'e';
    }
    forall k | 0 <= k < 30
      ensures !OccursAt(t, BeginDocument, k)
    {
      if k != 16 {
        EndBeforeBeginNoTag(BeginDocument, k);
      }
    }
  }

  lemma EndBeforeBeginEnd()
    ensures Find(EndBeforeBegin, EndDocument, 0) == 16
  {
    var t := EndBeforeBegin;
    assert t[16..30] == EndDocument;
    assert OccursAt(t, EndDocument, 16);
    forall k | 0 <= k < 16
      ensures !OccursAt(t, EndDocument, k)
    {
      EndBeforeBeginNoTag(EndDocument, k);
    }
  }

  lemma EndBeforeBeginNoLaterEnd(t: string)
    requires t == EndBeforeBegin
    ensures OccursAt(t, EndDocument, 16)
    ensures forall k :: 16 < k <= |t| ==> !OccursAt(t, EndDocument, k)
  {
    assert t[16..30] == EndDocument;
    assert !OccursAt(t, EndDocument, 30) by {
      OccursAtHead(t, EndDocument, 30);
      assert t[31] == 'b';
    }
    forall k | 16 < k <= |t|
      ensures !OccursAt(t, EndDocument, k)
    {
      if k != 30 {
        EndBeforeBeginNoTag(EndDocument, k);
      }
    }
  }

  lemma EndBeforeBeginLastEnd(t: string)
    requires t == EndBeforeBegin
    ensures RFind(t, EndDocument, |t|) == 16
  {
    EndBeforeBeginNoLaterEnd(t);
  }

  /** The test as written accepts that document, the strict test rejects
      it, and the split it guards fails. */
  lemma IsCompleteAdmitsFailedSplit()
    ensures IsComplete(EndBeforeBegin) && !IsCompleteStrict(EndBeforeBegin)
    ensures SplitLatexDocument(EndBeforeBegin, BeginDocument, EndDocument).Err?
  {
    EndBeforeBeginDeclaration();
    EndBeforeBeginBegin();
    EndBeforeBeginEnd();
    EndBeforeBeginLastEnd(EndBeforeBegin);
  }

  // ---------------------------------------------------------------------
  // `insert_macro`

  /** The source's `assert match is not None`. */
  datatype InsertError = NoDeclaration

  /** `insert_macro(text, macro)`: the macro goes on its own line right after
      the first declaration. */
  function InsertMacro(text: string, macro: string): (r: Result<string, InsertError>)
  {
    match SearchDeclaration(text)
    case None => Err(NoDeclaration)
    case Some(sp) => Ok(text[..sp.end] + "\n" + macro + "\n" + text[sp.end..])
  }

  /** It fails exactly when there is no declaration. Otherwise the result
      holds the macro line right where the first declaration ends, and
      without that line it is the text again. */
  lemma InsertMacroSpec(text: string, macro: string)
    ensures var r := InsertMacro(text, macro);
      (r.Err? <==> SearchDeclaration(text).None?) &&
      (r.Ok? ==> var end := SearchDeclaration(text).value.end;
        |r.value| == |text| + |macro| + 2 &&
        r.value[end..end + |macro| + 2] == "\n" + macro + "\n" &&
        r.value[..end] + r.value[end + |macro| + 2..] == text)
  {
    var r := InsertMacro(text, macro);
    if r.Ok? {
      var end := SearchDeclaration(text).value.end;
      var line := "\n" + macro + "\n";
      assert r.value == text[..end] + line + text[end..];
      assert r.value[end..end + |line|] == line;
      assert r.value[..end] == text[..end];
      assert r.value[end + |line|..] == text[end..];
      assert text[..end] + text[end..] == text;
    }
  }

  // ---------------------------------------------------------------------
  // `remove_blank_lines`: `\n\n+` becomes `\n`.

  /** The index after the run of newlines starting at `j`. */
  function NewlinesEnd(s: string, j: nat): (r: nat)
    requires j <= |s|
    ensures j <= r <= |s| && (r < |s| ==> s[r] != '\n')
    ensures forall k :: j <= k < r ==> s[k] == '\n'
    decreases |s| - j
  {
    if j < |s| && s[j] == '\n' then NewlinesEnd(s, j + 1) else j
  }

  function RemoveBlankLines(s: string): string
    decreases |s|
  {
    if |s| == 0 then ""
    else if s[0] == '\n' then
      var e := NewlinesEnd(s, 1);
      "\n" + RemoveBlankLines(s[e..])
    else [s[0]] + RemoveBlankLines(s[1..])
  }

  predicate NoBlankLine(s: string)
  {
    forall k :: 0 <= k < |s| - 1 ==> !(s[k] == '\n' && s[k + 1] == '\n')
  }

  lemma ThinnedNewlineRun(s: string, e: nat)
    requires 1 <= e <= |s| && forall k :: 0 <= k < e ==> s[k] == '\n'
    ensures Thinned("\n", s[..e], '\n')
    decreases e
  {
    if e > 1 {
      ThinnedNewlineRun(s, e - 1);
      ThinnedRefl("\n", '\n');
      ThinnedDrop('\n');
      ThinnedAppend("\n", s[..e - 1], "", "\n", '\n');
      assert "\n" + "" == "\n";
      assert s[..e - 1] + "\n" == s[..e];
    } else {
      assert s[..1] == "\n";
      ThinnedRefl("\n", '\n');
    }
  }

  /** The result only lacks some newlines of the text, holds no two
      newlines in a row, and starts with a non-newline character exactly
      when the text does. */
  lemma {:induction false} RemoveBlankLinesSpec(s: string)
    ensures var r := RemoveBlankLines(s);
      Thinned(r, s, '\n') && NoBlankLine(r) &&
      (|r| == 0 <==> |s| == 0) && (|s| > 0 ==> r[0] == s[0])
    decreases |s|
  {
    var r := RemoveBlankLines(s);
    if |s| > 0 {
      if s[0] == '\n' {
        var e := NewlinesEnd(s, 1);
        RemoveBlankLinesSpec(s[e..]);
        var rest := RemoveBlankLines(s[e..]);
        ThinnedNewlineRun(s, e);
        ThinnedAppend("\n", s[..e], rest, s[e..], '\n');
        assert s[..e] + s[e..] == s;
        if |rest| > 0 {
          assert rest[0] == s[e] && s[e] != '\n';
        }
        forall k | 0 <= k < |r| - 1 ensures !(r[k] == '\n' && r[k + 1] == '\n') {
          if k > 0 { assert r[k] == rest[k - 1] && r[k + 1] == rest[k]; }
        }
      } else {
        RemoveBlankLinesSpec(s[1..]);
        var rest := RemoveBlankLines(s[1..]);
        ThinnedRefl([s[0]], '\n');
        ThinnedAppend([s[0]], [s[0]], rest, s[1..], '\n');
        assert [s[0]] + s[1..] == s;
        forall k | 0 <= k < |r| - 1 ensures !(r[k] == '\n' && r[k + 1] == '\n') {
          if k > 0 { assert r[k] == rest[k - 1] && r[k + 1] == rest[k]; }
        }
      }
    }
  }

  /** A text without blank lines is left as it is; so removing blank lines
      twice is the same as once. */
  lemma {:induction false} RemoveBlankLinesFixed(s: string)
    requires NoBlankLine(s)
    ensures RemoveBlankLines(s) == s
    decreases |s|
  {
    if |s| > 0 {
      if s[0] == '\n' {
        assert NewlinesEnd(s, 1) == 1;
      }
      assert NoBlankLine(s[1..]) by {
        forall k | 0 <= k < |s[1..]| - 1 ensures !(s[1..][k] == '\n' && s[1..][k + 1] == '\n') {
          assert s[1..][k] == s[k + 1] && s[1..][k + 1] == s[k + 2];
        }
      }
      RemoveBlankLinesFixed(s[1..]);
    }
  }

  lemma RemoveBlankLinesIdempotent(s: string)
    ensures RemoveBlankLines(RemoveBlankLines(s)) == RemoveBlankLines(s)
  {
    RemoveBlankLinesSpec(s);
    RemoveBlankLinesFixed(RemoveBlankLines(s));
  }

  // ---------------------------------------------------------------------
  // `get_theorems`: the names of `\\newtheorem[ \t]*\{(.+?)\}`.

  function TheoremAt(s: string, i: nat): (r: Option<(string, nat)>)
    requires i <= |s|
    ensures r.Some? ==> i < r.value.1 <= |s| && |r.value.0| > 0 && '}' !in r.value.0[1..]
    ensures r.Some? ==> OccursAt(s, "\\newtheorem", i) && Contains(s, "{" + r.value.0 + "}")
  {
    if OccursAt(s, "\\newtheorem", i) then
      var k := BlanksEnd(s, i + 11);
      if k + 1 < |s| && s[k] == '{' then
        var c := Find(s, "}", k + 2);
        if c == -1 then None
        else
          BracedName(s, k, c);
          Some((s[k + 1..c], c + 1))
      else None
    else None
  }

  /** The text between `{` at `k` and the first `}` from `k + 2` on is a
   *  name with no `}` after its first character, and braced it occurs in `s`. */
  lemma BracedName(s: string, k: nat, c: int)
    requires k + 1 < |s| && s[k] == '{' && c != -1 && c == Find(s, "}", k + 2)
    ensures k + 2 <= c < |s|
    ensures '}' !in s[k + 1..c][1..]
    ensures Contains(s, "{" + s[k + 1..c] + "}")
  {
    NoCloseBefore(s, k + 2, c);
    assert s[k + 1..c][1..] == s[k + 2..c];
    BracedOccurs(s, k, c);
  }

  lemma NoCloseBefore(s: string, a: nat, c: int)
    requires c != -1 && c == Find(s, "}", a)
    ensures a <= c < |s| && '}' !in s[a..c]
  {
    forall q | a <= q < c
      ensures s[q] != '}'
    {
      assert !OccursAt(s, "}", q);
    }
  }

  lemma BracedOccurs(s: string, k: nat, c: nat)
    requires k < c < |s| && s[k] == '{' && s[c] == '}'
    ensures Contains(s, "{" + s[k + 1..c] + "}")
  {
    var name := s[k + 1..c];
    assert s[k..c + 1] == "{" + name + "}";
    assert OccursAt(s, "{" + name + "}", k);
  }

  /** `re.finditer` from `i` on: matches do not overlap. */
  function GetTheorems(s: string, i: nat): (names: seq<string>)
    requires i <= |s|
    ensures forall k :: 0 <= k < |names| ==>
      |names[k]| > 0 && '}' !in names[k][1..] && Contains(s, "{" + names[k] + "}")
    decreases |s| - i
  {
    if i == |s| then []
    else
      match TheoremAt(s, i)
      case Some((name, e)) => [name] + GetTheorems(s, e)
      case None => GetTheorems(s, i + 1)
  }

  /** A text without `\newtheorem` declares no theorem. */
  lemma {:induction false} GetTheoremsNone(s: string, i: nat)
    requires i <= |s| && forall q :: i <= q <= |s| ==> !OccursAt(s, "\\newtheorem", q)
    ensures GetTheorems(s, i) == []
    decreases |s| - i
  {
    if i < |s| { GetTheoremsNone(s, i + 1); }
  }

  // ---------------------------------------------------------------------
  // `get_nonNone`

  datatype NonNoneError = NotExactlyOne

  function NonNone<T>(args: seq<Option<T>>): seq<T>
  {
    if |args| == 0 then []
    else (if args[0].Some? then [args[0].value] else []) + NonNone(args[1..])
  }

  /** `get_nonNone(*args)`: the single argument that is not None. */
  function GetNonNone<T>(args: seq<Option<T>>): (r: Result<T, NonNoneError>)
  {
    var values := NonNone(args);
    if |values| == 1 then Ok(values[0]) else Err(NotExactlyOne)
  }

  /** It succeeds exactly when one argument is present, and returns it. */
  lemma {:induction false} GetNonNoneSpec<T>(args: seq<Option<T>>)
    ensures GetNonNone(args).Ok? <==> exists i :: 0 <= i < |args| && args[i].Some? && forall j :: 0 <= j < |args| && j != i ==> args[j].None?
    ensures GetNonNone(args).Ok? ==> exists i :: 0 <= i < |args| && args[i] == Some(GetNonNone(args).value)
  {
    NonNoneSpec(args);
  }

  lemma {:induction false} NonNoneSpec<T>(args: seq<Option<T>>)
    ensures |NonNone(args)| == 0 <==> forall j :: 0 <= j < |args| ==> args[j].None?
    ensures |NonNone(args)| == 1 <==> exists i :: 0 <= i < |args| && args[i].Some? && forall j :: 0 <= j < |args| && j != i ==> args[j].None?
    ensures |NonNone(args)| == 1 ==> exists i :: 0 <= i < |args| && args[i] == Some(NonNone(args)[0])
  {
    if |args| > 0 {
      NonNoneSpec(args[1..]);
      var rest := args[1..];
      if args[0].Some? {
        if |NonNone(args)| == 1 {
          assert args[0] == Some(NonNone(args)[0]);
          forall j | 0 < j < |args| ensures args[j].None? { assert args[j] == rest[j - 1]; }
        }
        if exists i :: 0 <= i < |args| && args[i].Some? && forall j :: 0 <= j < |args| && j != i ==> args[j].None? {
          var i :| 0 <= i < |args| && args[i].Some? && forall j :: 0 <= j < |args| && j != i ==> args[j].None?;
          assert i == 0;
          forall j | 0 <= j < |rest| ensures rest[j].None? { assert rest[j] == args[j + 1]; }
        }
      } else {
        assert NonNone(args) == NonNone(rest);
        if |NonNone(args)| == 1 {
          var i :| 0 <= i < |rest| && rest[i].Some? && forall j :: 0 <= j < |rest| && j != i ==> rest[j].None?;
          assert args[i + 1] == rest[i];
          forall j | 0 <= j < |args| && j != i + 1 ensures args[j].None? {
            if j > 0 { assert args[j] == rest[j - 1]; }
          }
          var i2 :| 0 <= i2 < |rest| && rest[i2] == Some(NonNone(rest)[0]);
          assert args[i2 + 1] == rest[i2];
        }
        if exists i :: 0 <= i < |args| && args[i].Some? && forall j :: 0 <= j < |args| && j != i ==> args[j].None? {
          var i :| 0 <= i < |args| && args[i].Some? && forall j :: 0 <= j < |args| && j != i ==> args[j].None?;
          assert rest[i - 1] == args[i];
          forall j | 0 <= j < |rest| && j != i - 1 ensures rest[j].None? { assert rest[j] == args[j + 1]; }
        }
        if forall j :: 0 <= j < |rest| ==> rest[j].None? {
          forall j | 0 <= j < |args| ensures args[j].None? { if j > 0 { assert args[j] == rest[j - 1]; } }
        }
      }
    }
  }

  // ---------------------------------------------------------------------
  // `combine_split_to_sentences`: `\n(\s*([^\s]+))`.

  function SpacesEnd(s: string, j: nat): (r: nat)
    requires j <= |s|
    ensures j <= r <= |s| && (r < |s| ==> !IsSpace(s[r]))
    ensures forall k :: j <= k < r ==> IsSpace(s[k])
    decreases |s| - j
  {
    if j < |s| && IsSpace(s[j]) then SpacesEnd(s, j + 1) else j
  }

  function WordEnd(s: string, j: nat): (r: nat)
    requires j <= |s|
    ensures j <= r <= |s| && (r < |s| ==> IsSpace(s[r]))
    ensures forall k :: j <= k < r ==> !IsSpace(s[k])
    decreases |s| - j
  {
    if j < |s| && !IsSpace(s[j]) then WordEnd(s, j + 1) else j
  }

  /** The word after the newline at `i` begins with the sentinel. */
  predicate SentinelWord(s: string, mathCode: string, q: nat)
    requires q <= |s|
  {
    var word := s[q..WordEnd(s, q)];
    |word| >= |mathCode| && word[..|mathCode|] == mathCode
  }

  /** The substitution from `i` on. A match is a newline, blanks (newlines
      included) and a word; it becomes a space followed by the blanks and
      the word, unless the word starts with the sentinel. */
  function Combine(s: string, mathCode: string, i: nat): (r: string)
    requires i <= |s|
    ensures |r| == |s| - i
    ensures forall k :: 0 <= k < |r| ==> r[k] == s[i + k] || (s[i + k] == '\n' && r[k] == ' ')
    decreases |s| - i
  {
    if i == |s| then ""
    else if s[i] == '\n' && SpacesEnd(s, i + 1) < |s| then
      var q := SpacesEnd(s, i + 1);
      var e := WordEnd(s, q);
      var head := if SentinelWord(s, mathCode, q) then s[i..e] else " " + s[i + 1..e];
      var rest := Combine(s, mathCode, e);
      BreaksOnlyAppend(s, i, e, head, rest);
      head + rest
    else [s[i]] + Combine(s, mathCode, i + 1)
  }

  /** `r` is `s[i..j]` with some newlines turned into spaces. */
  predicate BreaksOnly(s: string, i: nat, j: nat, r: string)
    requires i <= j <= |s|
  {
    |r| == j - i && forall k :: 0 <= k < |r| ==> r[k] == s[i + k] || (s[i + k] == '\n' && r[k] == ' ')
  }

  lemma BreaksOnlyAppend(s: string, i: nat, e: nat, head: string, rest: string)
    requires i < e <= |s| && s[i] == '\n'
    requires head == s[i..e] || head == " " + s[i + 1..e]
    requires BreaksOnly(s, e, |s|, rest)
    ensures BreaksOnly(s, i, |s|, head + rest)
  {
    assert BreaksOnly(s, i, e, head);
  }

  /** Outside a match, `Combine` copies one character and moves on. */
  lemma CombineSkip(s: string, mathCode: string, i: nat, k: nat)
    requires i < k < |s| && !(s[i] == '\n' && SpacesEnd(s, i + 1) < |s|)
    ensures Combine(s, mathCode, i)[k - i] == Combine(s, mathCode, i + 1)[k - i - 1]
  {
    assert Combine(s, mathCode, i) == [s[i]] + Combine(s, mathCode, i + 1);
  }

  /** `combine_split_to_sentences(text)`: the length is kept and the only
      change is a newline turned into a space. */
  function CombineSplitToSentences(text: string, mathCode: string): (r: string)
    ensures |r| == |text|
    ensures forall k :: 0 <= k < |r| ==> r[k] == text[k] || (text[k] == '\n' && r[k] == ' ')
  {
    Combine(text, mathCode, 0)
  }

  /** Where one match step of `Combine` puts the characters of the text. */
  lemma CombineStep(s: string, mathCode: string, i: nat, k: nat)
    requires i <= k < |s| && s[i] == '\n' && SpacesEnd(s, i + 1) < |s|
    ensures var e := WordEnd(s, SpacesEnd(s, i + 1));
      var r := Combine(s, mathCode, i);
      (k == i ==> r[0] == (if SentinelWord(s, mathCode, SpacesEnd(s, i + 1)) then '\n' else ' ')) &&
      (i < k < e ==> r[k - i] == s[k]) &&
      (e <= k ==> r[k - i] == Combine(s, mathCode, e)[k - e])
  {
    var q := SpacesEnd(s, i + 1);
    var e := WordEnd(s, q);
    var head := if SentinelWord(s, mathCode, q) then s[i..e] else " " + s[i + 1..e];
    assert |head| == e - i;
    assert Combine(s, mathCode, i) == head + Combine(s, mathCode, e);
  }

  /** A line break is kept when the next word (after any blanks) starts with
      the sentinel. */
  lemma {:induction false} CombineKeepsSentinelBreak(s: string, mathCode: string, i: nat, k: nat)
    requires i <= k < |s| && s[k] == '\n'
    requires SpacesEnd(s, k + 1) < |s| && SentinelWord(s, mathCode, SpacesEnd(s, k + 1))
    ensures Combine(s, mathCode, i)[k - i] == '\n'
    decreases |s| - i, 1
  {
    if s[i] == '\n' && SpacesEnd(s, i + 1) < |s| {
      CombineKeepsSentinelBreakAtMatch(s, mathCode, i, k);
    } else {
      CombineKeepsSentinelBreakSkip(s, mathCode, i, k);
    }
  }

  /** The case of `CombineKeepsSentinelBreak` where a match starts at `i`. */
  lemma {:induction false} CombineKeepsSentinelBreakAtMatch(s: string, mathCode: string, i: nat, k: nat)
    requires i <= k < |s| && s[k] == '\n'
    requires SpacesEnd(s, k + 1) < |s| && SentinelWord(s, mathCode, SpacesEnd(s, k + 1))
    requires s[i] == '\n' && SpacesEnd(s, i + 1) < |s|
    ensures Combine(s, mathCode, i)[k - i] == '\n'
    decreases |s| - i, 0
  {
    var e := WordEnd(s, SpacesEnd(s, i + 1));
    CombineStep(s, mathCode, i, k);
    if k >= e {
      CombineKeepsSentinelBreak(s, mathCode, e, k);
    }
  }

  /** The case of `CombineKeepsSentinelBreak` where no match starts at `i`. */
  lemma {:induction false} CombineKeepsSentinelBreakSkip(s: string, mathCode: string, i: nat, k: nat)
    requires i <= k < |s| && s[k] == '\n'
    requires SpacesEnd(s, k + 1) < |s| && SentinelWord(s, mathCode, SpacesEnd(s, k + 1))
    requires !(s[i] == '\n' && SpacesEnd(s, i + 1) < |s|)
    ensures Combine(s, mathCode, i)[k - i] == '\n'
    decreases |s| - i, 0
  {
    assert s[k] == '\n' && SpacesEnd(s, k + 1) < |s|;
    assert i < k;
    CombineSkip(s, mathCode, i, k);
    CombineKeepsSentinelBreak(s, mathCode, i + 1, k);
  }

  /** A newline right after a non-blank character lies past the match that
   *  starts at an earlier newline. */
  lemma PastStep(s: string, i: nat, k: nat)
    requires i < k < |s| && s[i] == '\n' && s[k] == '\n' && !IsSpace(s[k - 1])
    ensures k >= WordEnd(s, SpacesEnd(s, i + 1))
  {
    var q := SpacesEnd(s, i + 1);
    if k - 1 >= i + 1 {
      assert k - 1 >= q;
    }
  }

  /** Two lines are combined: a newline between two non-blank characters
      becomes a space when the word after it does not start with the
      sentinel. */
  lemma {:induction false} CombineJoinsLines(s: string, mathCode: string, i: nat, k: nat)
    requires i <= k && 0 < k && k + 1 < |s| && s[k] == '\n'
    requires !IsSpace(s[k - 1]) && !IsSpace(s[k + 1]) && !SentinelWord(s, mathCode, k + 1)
    ensures Combine(s, mathCode, i)[k - i] == ' '
    decreases |s| - i, 1
  {
    if s[i] == '\n' && SpacesEnd(s, i + 1) < |s| {
      CombineJoinsLinesAtMatch(s, mathCode, i, k);
    } else {
      CombineJoinsLinesSkip(s, mathCode, i, k);
    }
  }

  /** The case of `CombineJoinsLines` where no match starts at `i`. */
  lemma {:induction false} CombineJoinsLinesSkip(s: string, mathCode: string, i: nat, k: nat)
    requires i <= k && 0 < k && k + 1 < |s| && s[k] == '\n'
    requires !IsSpace(s[k - 1]) && !IsSpace(s[k + 1]) && !SentinelWord(s, mathCode, k + 1)
    requires !(s[i] == '\n' && SpacesEnd(s, i + 1) < |s|)
    ensures Combine(s, mathCode, i)[k - i] == ' '
    decreases |s| - i, 0
  {
    assert SpacesEnd(s, k + 1) == k + 1;
    CombineSkip(s, mathCode, i, k);
    CombineJoinsLines(s, mathCode, i + 1, k);
  }

  /** The case of `CombineJoinsLines` where a match starts at `i`. */
  lemma {:induction false} CombineJoinsLinesAtMatch(s: string, mathCode: string, i: nat, k: nat)
    requires i <= k && 0 < k && k + 1 < |s| && s[k] == '\n'
    requires !IsSpace(s[k - 1]) && !IsSpace(s[k + 1]) && !SentinelWord(s, mathCode, k + 1)
    requires s[i] == '\n' && SpacesEnd(s, i + 1) < |s|
    ensures Combine(s, mathCode, i)[k - i] == ' '
    decreases |s| - i, 0
  {
    assert SpacesEnd(s, k + 1) == k + 1;
    CombineStep(s, mathCode, i, k);
    if k > i {
      PastStep(s, i, k);
      CombineJoinsLines(s, mathCode, WordEnd(s, SpacesEnd(s, i + 1)), k);
    }
  }

  // ---------------------------------------------------------------------
  // `remove_tex_comments`

  /** `\n\s*%.*?(?=\n)` from `i` on: a newline, blanks, a `%` and the rest
      of that line are deleted, the next newline kept. */
  function DropCommentLines(s: string, i: nat): (r: string)
    requires i <= |s|
    decreases |s| - i
  {
    if i == |s| then ""
    else if s[i] == '\n' then
      var p := SpacesEnd(s, i + 1);
      if p < |s| && s[p] == '%' && Find(s, "\n", p + 1) != -1 then DropCommentLines(s, Find(s, "\n", p + 1))
      else [s[i]] + DropCommentLines(s, i + 1)
    else [s[i]] + DropCommentLines(s, i + 1)
  }

  /** `%.*?(?=\n)` from `i` on: a `%` and the rest of its line are deleted,
      when a newline follows; a comment on the last line stays. */
  function DropComments(s: string, i: nat): (r: string)
    requires i <= |s|
    ensures forall k :: 0 <= k < |r| && r[k] == '%' ==> '\n' !in r[k..]
    decreases |s| - i
  {
    if i == |s| then ""
    else if s[i] == '%' then
      var e := Find(s, "\n", i + 1);
      if e == -1 then
        assert forall k :: i <= k < |s| ==> s[k] != '\n' by {
          forall k | i <= k < |s| ensures s[k] != '\n' {
            if k > i { assert !OccursAt(s, "\n", k); }
          }
        }
        s[i..]
      else DropComments(s, e)
    else
      var rest := DropComments(s, i + 1);
      var r := [s[i]] + rest;
      assert forall k :: 1 <= k < |r| ==> r[k..] == rest[k - 1..];
      r
  }

  /** The sentinel words that stand in for an escaped backslash and an
      escaped percent sign while comments are deleted. */
  function BackslashWord(mathCode: string): string { mathCode + "_BLACKSLASH" }
  function PercentWord(mathCode: string): string { mathCode + "_PERCENT" }

  /** The text with `\\` and then `\%` replaced by their sentinel words. */
  function Protect(text: string, mathCode: string): string {
    ReplaceAll(ReplaceAll(text, "\\\\", BackslashWord(mathCode)), "\\%", PercentWord(mathCode))
  }

  /** The sentinel words turned back into `\%` and then `\\`. */
  function Unprotect(s: string, mathCode: string): string {
    ReplaceAll(ReplaceAll(s, PercentWord(mathCode), "\\%"), BackslashWord(mathCode), "\\\\")
  }

  /** Comment lines and then comments are deleted. */
  function StripComments(s: string): string { DropComments(DropCommentLines(s, 0), 0) }

  /** Every `%` that a line break follows somewhere later is preceded by a
      backslash. */
  predicate CommentFree(s: string) {
    forall k {:trigger s[k]} :: 0 <= k < |s| && s[k] == '%' && '\n' in s[k + 1..] ==> 0 < k && s[k - 1] == '\\'
  }

  /** `CommentFree` of a piece of text whose preceding character is `prev`. */
  predicate CommentFreeAfter(prev: char, s: string) {
    forall k {:trigger s[k]} :: 0 <= k < |s| && s[k] == '%' && '\n' in s[k + 1..] ==> (if k == 0 then prev else s[k - 1]) == '\\'
  }

  /** `remove_tex_comments(text)`: escaped backslashes and percent signs are
      protected by sentinel words, comment lines and then comments are
      deleted, and the protected characters put back. No unescaped `%`
      is left ahead of a line break. */
  method RemoveTexComments(text: string, mathCode: string) returns (out: string)
    ensures out == Unprotect(StripComments(Protect(text, mathCode)), mathCode)
    ensures CommentFree(out)
  {
    out := ReplaceAll(text, "\\\\", BackslashWord(mathCode));
    out := ReplaceAll(out, "\\%", PercentWord(mathCode));
    ghost var protected := out;
    out := DropCommentLines(out, 0);
    out := DropComments(out, 0);
    out := ReplaceAll(out, PercentWord(mathCode), "\\%");
    out := ReplaceAll(out, BackslashWord(mathCode), "\\\\");
    UnprotectCommentFree(protected, mathCode);
  }

  /** Replacing a word that does not end in a backslash by text whose every
      `%` follows a backslash and which holds no line break keeps a text
      comment free. */
  lemma {:induction false} ReplaceAllCommentFree(prev: char, s: string, pat: string, rep: string)
    requires |pat| > 0 && pat[|pat| - 1] != '\\'
    requires '\n' !in rep && forall j :: 0 <= j < |rep| && rep[j] == '%' ==> 0 < j && rep[j - 1] == '\\'
    requires CommentFreeAfter(prev, s)
    ensures CommentFreeAfter(prev, ReplaceAll(s, pat, rep))
    decreases |s|
  {
    var r := ReplaceAll(s, pat, rep);
    if |s| >= |pat| {
      if s[..|pat|] == pat {
        var tail := s[|pat|..];
        var rest := ReplaceAll(tail, pat, rep);
        assert r == rep + rest;
        assert CommentFreeAfter(pat[|pat| - 1], tail) by {
          forall k | 0 <= k < |tail| && tail[k] == '%' && '\n' in tail[k + 1..]
            ensures (if k == 0 then pat[|pat| - 1] else tail[k - 1]) == '\\'
          {
            assert s[|pat| + k] == '%' && s[|pat| + k + 1..] == tail[k + 1..];
          }
        }
        ReplaceAllCommentFree(pat[|pat| - 1], tail, pat, rep);
        forall k | 0 <= k < |r| && r[k] == '%' && '\n' in r[k + 1..]
          ensures (if k == 0 then prev else r[k - 1]) == '\\'
        {
          if k >= |rep| {
            assert rest[k - |rep|] == '%' && r[k + 1..] == rest[k - |rep| + 1..];
            if k > |rep| {
              assert r[k - 1] == rest[k - |rep| - 1];
            }
          } else {
            assert r[k] == rep[k];
            if k > 0 {
              assert r[k - 1] == rep[k - 1];
            }
          }
        }
      } else {
        var tail := s[1..];
        var rest := ReplaceAll(tail, pat, rep);
        assert r == [s[0]] + rest;
        assert CommentFreeAfter(s[0], tail) by {
          forall k | 0 <= k < |tail| && tail[k] == '%' && '\n' in tail[k + 1..]
            ensures (if k == 0 then s[0] else tail[k - 1]) == '\\'
          {
            assert s[k + 1] == '%' && s[k + 2..] == tail[k + 1..];
          }
        }
        ReplaceAllCommentFree(s[0], tail, pat, rep);
        if '\n' !in tail {
          ReplaceAllChars(tail, pat, rep, '\n');
        }
        forall k | 0 <= k < |r| && r[k] == '%' && '\n' in r[k + 1..]
          ensures (if k == 0 then prev else r[k - 1]) == '\\'
        {
          if k == 0 {
            assert r[1..] == rest;
            assert s[0] == '%' && '\n' in s[1..];
          } else {
            assert rest[k - 1] == '%' && r[k + 1..] == rest[k..];
            assert r[k - 1] == (if k - 1 == 0 then s[0] else rest[k - 2]);
          }
        }
      }
    }
  }

  /** Putting the sentinel words back leaves no unescaped `%` ahead of a
      line break in text that comments were stripped from. */
  lemma UnprotectCommentFree(s: string, mathCode: string)
    ensures CommentFree(Unprotect(StripComments(s), mathCode))
  {
    var y := StripComments(s);
    assert CommentFreeAfter(' ', y);
    var pw := PercentWord(mathCode);
    var bw := BackslashWord(mathCode);
    assert pw[|pw| - 1] == 'T' && bw[|bw| - 1] == 'H';
    var rp: string := "\\%";
    var rb: string := "\\\\";
    assert '\n' !in rp && '\n' !in rb;
    ReplaceAllCommentFree(' ', y, pw, rp);
    ReplaceAllCommentFree(' ', ReplaceAll(y, pw, rp), bw, rb);
    var u := Unprotect(y, mathCode);
    forall k | 0 <= k < |u| && u[k] == '%' && '\n' in u[k + 1..] ensures 0 < k && u[k - 1] == '\\' {
      assert (if k == 0 then ' ' else u[k - 1]) == '\\';
    }
  }

  /** The conditions under which the sentinel words can be told apart from
      the text around them: the code's first character occurs once in each
      word. */
  predicate SentinelSafe(mathCode: string) {
    |mathCode| > 0 && mathCode[0] !in mathCode[1..] && mathCode[0] !in "_BLACKSLASHPERCENT"
  }

  /** A text whose every `%` is escaped, and which holds neither sentinel
      word, comes back unchanged: escaped backslashes and percent signs
      survive. */
  lemma RemoveTexCommentsEscapesKept(text: string, mathCode: string)
    requires SentinelSafe(mathCode)
    requires !Contains(text, BackslashWord(mathCode)) && !Contains(text, PercentWord(mathCode))
    requires '%' !in Protect(text, mathCode)
    ensures Unprotect(StripComments(Protect(text, mathCode)), mathCode) == text
  {
    var bw := BackslashWord(mathCode);
    var pw := PercentWord(mathCode);
    var t1 := ReplaceAll(text, "\\\\", bw);
    var t2 := ReplaceAll(t1, "\\%", pw);
    DropCommentLinesNone(t2, 0);
    DropCommentsNone(t2, 0);
    assert StripComments(t2) == t2;
    assert bw[1..] == mathCode[1..] + "_BLACKSLASH" && pw[1..] == mathCode[1..] + "_PERCENT";
    assert bw[|mathCode| + 1] == 'B' && pw[|mathCode| + 1] == 'P';
    ReplaceAllNoNewOccurrence(text, "\\\\", bw, pw, |mathCode| + 1);
    ReplaceAllRoundTrip(t1, "\\%", pw);
    ReplaceAllRoundTrip(text, "\\\\", bw);
  }

  lemma {:induction false} DropCommentLinesNone(s: string, i: nat)
    requires i <= |s| && '%' !in s
    ensures DropCommentLines(s, i) == s[i..]
    decreases |s| - i
  {
    if i < |s| {
      DropCommentLinesNone(s, i + 1);
      assert [s[i]] + s[i + 1..] == s[i..];
    }
  }

  lemma {:induction false} DropCommentsNone(s: string, i: nat)
    requires i <= |s| && '%' !in s
    ensures DropComments(s, i) == s[i..]
    decreases |s| - i
  {
    if i < |s| {
      DropCommentsNone(s, i + 1);
      assert [s[i]] + s[i + 1..] == s[i..];
    }
  }

  lemma NotContainsChar(s: string, c: char, p: string)
    requires c !in s && c in p
    ensures !Contains(s, p)
  {
    var j :| 0 <= j < |p| && p[j] == c;
    forall i | 0 <= i <= |s| ensures !OccursAt(s, p, i) {
      assert i + j < |s| ==> s[i + j] != c;
    }
  }

  /** A text without `%` or backslash that does not hold the sentinel
      words comes back unchanged. */
  lemma RemoveTexCommentsPlain(text: string, mathCode: string)
    requires '%' !in text && '\\' !in text
    requires !Contains(text, PercentWord(mathCode)) && !Contains(text, BackslashWord(mathCode))
    ensures Unprotect(StripComments(Protect(text, mathCode)), mathCode) == text
  {
    NotContainsChar(text, '\\', "\\\\");
    ReplaceAllAbsent(text, "\\\\", mathCode + "_BLACKSLASH");
    NotContainsChar(text, '\\', "\\%");
    ReplaceAllAbsent(text, "\\%", mathCode + "_PERCENT");
    DropCommentLinesNone(text, 0);
    DropCommentsNone(text, 0);
    ReplaceAllAbsent(text, mathCode + "_PERCENT", "\\%");
    ReplaceAllAbsent(text, mathCode + "_BLACKSLASH", "\\\\");
  }
}
