/** Why recovery can undo extraction. When the text given to
    `replace_latex_objects` holds no sentinel of its own, every object it cuts
    out is padded by spaces and names only objects cut out before it: the
    condition `recover_latex_objects` needs to put all of them back. */
module Nested {
  import opened Wrappers
  import opened Text
  import opened Placeholder
  import opened Matchers
  import opened Extract
  import opened Recover
  import opened Restore

  /** The characters that close a group: every match that can hold a space
      ends with one of them. */
  predicate Closer(c: char) { c == '}' || c == ']' || c == ')' || c == '$' }

  /** A sentinel that neither a match's closing character nor the digits of a
      placeholder can be confused with. */
  predicate SafeMathCode(mathCode: string)
  {
    ValidMathCode(mathCode) &&
    forall k :: 0 <= k < |mathCode| ==> !Closer(mathCode[k]) && mathCode[k] != '_' && !IsDigit(mathCode[k])
  }

  /** The patterns of `replace_latex_objects` all have this shape: a
      delimited object ends with a closing character, and a command taken
      without arguments has no space in its name. */
  predicate EndsClosed(p: Pattern)
  {
    (p.Delimited? ==> |p.close| > 0 && Closer(p.close[|p.close| - 1])) &&
    (p.CommandArgs? && p.nargs == 0 ==> forall k :: 0 <= k < |p.command| ==> p.command[k] != ' ')
  }

  /** `<mathCode>_` occurs nowhere in `t`. */
  predicate NoSentinel(t: string, mathCode: string)
  {
    forall p :: 0 <= p < |t| ==> !SentinelAt(t, mathCode, p)
  }

  /** The span `t[s..e]` ends with a closing character or holds no space. */
  predicate EndsClear(t: string, s: nat, e: nat)
    requires s < e <= |t|
  {
    Closer(t[e - 1]) || forall q :: s <= q < e ==> t[q] != ' '
  }

  /** Placeholder `v` followed by a space stands at `p`. */
  predicate CodeAt(t: string, mathCode: string, p: nat, v: nat)
  {
    OccursAt(t, VariableCode(mathCode, v) + " ", p)
  }

  /** A space, then the placeholder of an object numbered below `c`, then a space. */
  ghost predicate Placed(t: string, mathCode: string, p: nat, c: nat)
  {
    0 < p <= |t| && t[p - 1] == ' ' && exists v: nat :: v < c && CodeAt(t, mathCode, p, v)
  }

  /** Every sentinel in `t` begins a placeholder of an object numbered below `c`. */
  ghost predicate Good(t: string, mathCode: string, c: nat)
  {
    forall p :: 0 <= p < |t| && SentinelAt(t, mathCode, p) ==> Placed(t, mathCode, p, c)
  }

  /** An object as `recover_latex_objects` needs it: padded by spaces, and
      naming only objects numbered below `n`. */
  predicate ObjectBelow(o: string, mathCode: string, n: nat)
  {
    |o| > 0 && o[0] == ' ' && o[|o| - 1] == ' ' &&
    forall x :: x in Tokens(o, mathCode, 0) ==> x.Some? && x.value < n
  }

  /** Objects numbered from `c` on, each naming only objects before it. */
  predicate NestedFrom(objs: seq<string>, mathCode: string, c: nat)
  {
    forall k :: 0 <= k < |objs| ==> ObjectBelow(objs[k], mathCode, c + k)
  }

  // ---------------------------------------------------------------------
  // Characters.

  lemma OccursAtChars(s: string, w: string, i: nat)
    ensures OccursAt(s, w, i) <==> i + |w| <= |s| && forall m :: 0 <= m < |w| ==> s[i + m] == w[m]
  {
    if i + |w| <= |s| && forall m :: 0 <= m < |w| ==> s[i + m] == w[m] {
      assert s[i..i + |w|] == w;
    }
  }

  /** A placeholder holds no markup, closing character or space; after the
      sentinel it holds only `_` and digits. */
  lemma CodeChars(mathCode: string, v: nat)
    requires SafeMathCode(mathCode)
    ensures var w := VariableCode(mathCode, v);
      |w| > |mathCode| + 1 && w[|mathCode|] == '_' &&
      forall m :: 0 <= m < |w| ==>
        (!IsMarkup(w[m]) && !Closer(w[m]) && w[m] != ' ' &&
         (m < |mathCode| ==> w[m] == mathCode[m]) &&
         (m >= |mathCode| ==> w[m] == '_' || IsDigit(w[m])))
  {
    var w := VariableCode(mathCode, v);
    VariableCodeShape(mathCode, v);
    var head := mathCode + "_";
    assert w[..|head|] == head;
    forall m | 0 <= m < |w|
      ensures (m < |mathCode| ==> w[m] == mathCode[m]) && (m >= |mathCode| ==> w[m] == '_' || IsDigit(w[m]))
    {
      if m < |head| {
        assert w[m] == head[m];
      } else {
        assert w[m] == w[|mathCode| + 1..][m - |mathCode| - 1];
      }
    }
    assert w[|mathCode|] == head[|mathCode|];
  }

  // ---------------------------------------------------------------------
  // The match a placeholder gives.

  /** Between `_` and the digits of `variable_code(n)` every `_` is followed by a digit. */
  lemma {:induction false} BodyContinues(ds: string)
    requires |ds| >= 1 && AllDigits(ds)
    ensures var b := Join(Singletons(ds), "_");
      IsDigit(b[0]) && forall k :: 0 <= k < |b| ==> GroupContinues(b, k)
  {
    if |ds| > 1 {
      BodyContinues(ds[1..]);
      CodeBodyChars(ds[1..]);
      assert Singletons(ds)[1..] == Singletons(ds[1..]);
      var rest := Join(Singletons(ds[1..]), "_");
      var b := Join(Singletons(ds), "_");
      assert b == [ds[0]] + "_" + rest;
      forall k | 2 <= k < |b| ensures GroupContinues(b, k) {
        assert GroupContinues(rest, k - 2);
        assert b[k] == rest[k - 2];
        if k + 1 < |b| {
          assert b[k + 1] == rest[k - 1];
        }
      }
      assert GroupContinues(b, 1) by {
        assert b[1] == '_' && b[2] == rest[0];
      }
    }
  }

  lemma {:induction false} GroupTailRun(t: string, k: nat, end: nat)
    requires k <= end < |t|
    requires forall q :: k <= q < end ==> GroupContinues(t, q)
    requires !GroupContinues(t, end)
    ensures GroupTail(t, k) == end
    decreases end - k
  {
    if k < end {
      GroupTailRun(t, k + 1, end);
    }
  }

  /** The placeholder of object `v`, followed by a space, is one match whose
      decoded number is `v`. */
  lemma PlaceholderToken(mathCode: string, v: nat)
    ensures var w := VariableCode(mathCode, v);
      TokenAt(w + " ", mathCode, 0) == Some(Token(|w|, Some(v)))
  {
    var w := VariableCode(mathCode, v);
    var x := w + " ";
    var n := |mathCode|;
    var d := n + 1;
    VariableCodeShape(mathCode, v);
    assert w[..n + 1] == mathCode + "_";
    SentinelAtChars(x, mathCode, 0);
    forall m | 0 <= m < n + 1 ensures x[m] == (mathCode + "_")[m] {
      assert x[m] == w[..n + 1][m];
    }
    var ds := DecimalString(v);
    var body := Join(Singletons(ds), "_");
    assert w[d..] == body;
    BodyContinues(ds);
    forall q | d + 1 <= q < |w| ensures GroupContinues(x, q) {
      assert GroupContinues(body, q - d);
      assert x[q] == body[q - d];
      if q + 1 < |w| {
        assert x[q + 1] == body[q + 1 - d];
      }
    }
    assert x[|w|] == ' ';
    GroupTailRun(x, d + 1, |w|);
    DecodeVariableCode(mathCode, v);
    assert x[d..|w|] == w[d..];
  }

  /** A placeholder followed by a space inside a text is the match found
      there, and its decoded number is the placeholder's. */
  lemma CodeAtToken(t: string, mathCode: string, p: nat, v: nat)
    requires ValidMathCode(mathCode) && CodeAt(t, mathCode, p, v)
    ensures p < |t| && TokenAt(t, mathCode, p) == Some(Token(p + |VariableCode(mathCode, v)|, Some(v)))
  {
    var w := VariableCode(mathCode, v);
    var x := w + " ";
    var y := t[p..];
    var b := t[p + |x|..];
    assert y == x + b;
    PlaceholderToken(mathCode, v);
    assert x[|x| - 1] == ' ';
    TokenAtPrefix(x, b, mathCode, 0);
    SuffixToken(t, mathCode, p);
  }

  /** The match at `p` is the one found at the start of `t[p..]`, shifted. */
  lemma SuffixToken(t: string, mathCode: string, p: nat)
    requires p < |t|
    ensures TokenAt(t, mathCode, p) == Shift(TokenAt(t[p..], mathCode, 0), p)
  {
    TokenAtShift(t[..p], t[p..], mathCode, 0);
    assert t[..p] + t[p..] == t;
  }

  /** In a good text every match names an object numbered below `c`. */
  lemma {:induction false} TokensGood(t: string, mathCode: string, c: nat, i: nat)
    requires SafeMathCode(mathCode) && Good(t, mathCode, c) && i <= |t|
    ensures forall x :: x in Tokens(t, mathCode, i) ==> x.Some? && x.value < c
    decreases |t| - i
  {
    if i < |t| {
      if TokenAt(t, mathCode, i).None? {
        TokensGood(t, mathCode, c, i + 1);
      } else {
        assert Placed(t, mathCode, i, c);
        var v: nat :| v < c && CodeAt(t, mathCode, i, v);
        CodeAtToken(t, mathCode, i, v);
        TokensGood(t, mathCode, c, i + |VariableCode(mathCode, v)|);
      }
    }
  }

  // ---------------------------------------------------------------------
  // Where a match ends.

  lemma DelimitedEndsClear(open: string, close: string, t: string, i: nat)
    requires WellFormed(Delimited(open, close)) && EndsClosed(Delimited(open, close))
    requires i <= |t| && MatchAt(Delimited(open, close), t, i).Some?
    ensures EndsClear(t, i, MatchAt(Delimited(open, close), t, i).value)
  {
    var c := Find(t, close, i + |open|);
    assert OccursAt(t, close, c);
    assert t[c + |close| - 1] == t[c..c + |close|][|close| - 1];
  }

  lemma NamedEndsClear(name: string, t: string, i: nat)
    requires EndsClosed(CommandArgs(name, 0))
    requires i <= |t| && CommandArgsAt(t, i, name, 0).Some?
    ensures EndsClear(t, i, CommandArgsAt(t, i, name, 0).value)
  {
    var e := CommandArgsAt(t, i, name, 0).value;
    assert OccursAt(t, name, i + 1) && e == i + 1 + |name|;
    forall q | i <= q < e ensures t[q] != ' ' {
      if q > i {
        assert t[q] == t[i + 1..i + 1 + |name|][q - i - 1];
      }
    }
  }

  lemma SimpleEndsClear(t: string, i: nat)
    requires i <= |t| && CommandSimpleAt(t, i).Some?
    ensures EndsClear(t, i, CommandSimpleAt(t, i).value)
  {
    var l := LettersEnd(t, i + 1);
    assert CommandSimpleAt(t, i).value == l || (CommandSimpleAt(t, i).value == l + 1 && t[l] == '*');
  }

  /** The end tag that closes an environment match, found from one of the two
      places the lazy content group can start. */
  lemma EnvEndFound(t: string, i: nat, spec: NameSpec) returns (name: string, st: nat)
    requires i <= |t| && EnvPartsAt(t, i, spec).Some?
    ensures st <= |t| && FindEndTag(t, st, name).Some?
    ensures FindEndTag(t, st, name).value.end == EnvPartsAt(t, i, spec).value.end
  {
    var tag := BeginTagAt(t, i, spec).value;
    name := tag.0;
    var k := BlanksEnd(t, tag.1);
    var o := OptionsAt(t, k);
    if o.Some? && FindEndTag(t, o.value, name).Some? {
      st := o.value;
    } else {
      st := k;
    }
  }

  /** An environment ends with the `}` of its end tag. */
  lemma EnvEndsBrace(t: string, i: nat, spec: NameSpec)
    requires i <= |t| && EnvPartsAt(t, i, spec).Some?
    ensures t[EnvPartsAt(t, i, spec).value.end - 1] == '}'
  {
    var name, st := EnvEndFound(t, i, spec);
    var f := FindEndTag(t, st, name).value;
    assert EndTagAt(t, f.start, name) == Some(f.end);
  }

  lemma EnvMatchEndsClear(spec: NameSpec, t: string, i: nat)
    requires i <= |t| && MatchAt(Env(spec), t, i).Some?
    ensures EndsClear(t, i, MatchAt(Env(spec), t, i).value)
  {
    EnvEndsBrace(t, i, spec);
    assert MatchAt(Env(spec), t, i) == Some(EnvPartsAt(t, i, spec).value.end);
  }

  lemma CommandArgsMatchEndsClear(name: string, nargs: nat, t: string, i: nat)
    requires WellFormed(CommandArgs(name, nargs)) && EndsClosed(CommandArgs(name, nargs))
    requires i <= |t| && MatchAt(CommandArgs(name, nargs), t, i).Some?
    ensures EndsClear(t, i, MatchAt(CommandArgs(name, nargs), t, i).value)
  {
    assert MatchAt(CommandArgs(name, nargs), t, i) == CommandArgsAt(t, i, name, nargs);
    if nargs == 0 {
      NamedEndsClear(name, t, i);
    }
  }

  // These patterns all end with a closing brace.

  lemma SetCommandEndsBrace(t: string, i: nat)
    requires i <= |t| && MatchAt(SetCommand, t, i).Some?
    ensures EndsClear(t, i, MatchAt(SetCommand, t, i).value)
  {
    assert MatchAt(SetCommand, t, i) == SetCommandAt(t, i);
  }

  lemma SetBracedEndsBrace(t: string, i: nat)
    requires i <= |t| && MatchAt(SetBraced, t, i).Some?
    ensures EndsClear(t, i, MatchAt(SetBraced, t, i).value)
  {
    assert MatchAt(SetBraced, t, i) == SetBracedAt(t, i);
  }

  lemma CommandEndsBrace(spec: NameSpec, t: string, i: nat)
    requires i <= |t| && MatchAt(Command(spec), t, i).Some?
    ensures EndsClear(t, i, MatchAt(Command(spec), t, i).value)
  {
    assert MatchAt(Command(spec), t, i) == CommandAt(t, i, spec);
  }

  lemma BraceEndsBrace(t: string, i: nat)
    requires i <= |t| && MatchAt(Brace, t, i).Some?
    ensures EndsClear(t, i, MatchAt(Brace, t, i).value)
  {
    assert MatchAt(Brace, t, i) == BraceAt(t, i);
  }

  lemma SimpleMatchEndsClear(t: string, i: nat)
    requires i <= |t| && MatchAt(CommandSimple, t, i).Some?
    ensures EndsClear(t, i, MatchAt(CommandSimple, t, i).value)
  {
    assert MatchAt(CommandSimple, t, i) == CommandSimpleAt(t, i);
    SimpleEndsClear(t, i);
  }

  /** Every match of a pattern of this shape ends clear of placeholders. */
  lemma MatchEndsClear(p: Pattern, t: string, i: nat)
    requires WellFormed(p) && EndsClosed(p) && i <= |t| && MatchAt(p, t, i).Some?
    ensures EndsClear(t, i, MatchAt(p, t, i).value)
  {
    match p
    case Delimited(open, close) => DelimitedEndsClear(open, close, t, i);
    case Env(spec) => EnvMatchEndsClear(spec, t, i);
    case SetCommand => SetCommandEndsBrace(t, i);
    case SetBraced => SetBracedEndsBrace(t, i);
    case CommandArgs(name, nargs) => CommandArgsMatchEndsClear(name, nargs, t, i);
    case Command(spec) => CommandEndsBrace(spec, t, i);
    case Brace => BraceEndsBrace(t, i);
    case CommandSimple => SimpleMatchEndsClear(t, i);
  }

  // ---------------------------------------------------------------------
  // The object cut out.

  /** A sentinel inside the padded object is one of `t`, inside the match. */
  lemma ObjectSentinel(t: string, mathCode: string, s: nat, e: nat, p: nat)
    requires ValidMathCode(mathCode)
    requires s < e <= |t|
    requires p < |Padded(t[s..e])| && SentinelAt(Padded(t[s..e]), mathCode, p)
    ensures 0 < p && s + p - 1 + |mathCode| + 1 <= e && SentinelAt(t, mathCode, s + p - 1)
  {
    var o := Padded(t[s..e]);
    var n := |mathCode|;
    SentinelAtChars(o, mathCode, p);
    assert o[p] == (mathCode + "_")[0] == mathCode[0];
    assert o[p + n] == (mathCode + "_")[n] == '_';
    var q := s + p - 1;
    SentinelAtChars(t, mathCode, q);
    forall m | 0 <= m < n + 1 ensures t[q + m] == (mathCode + "_")[m] {
      assert o[p + m] == t[q + m];
    }
  }

  /** The match cannot end inside a placeholder that starts within it. */
  lemma CodeInsideMatch(t: string, mathCode: string, s: nat, e: nat, q: nat, v: nat)
    requires SafeMathCode(mathCode)
    requires s < q && q + |mathCode| + 1 <= e <= |t| && EndsClear(t, s, e)
    requires t[q - 1] == ' ' && CodeAt(t, mathCode, q, v)
    ensures q + |VariableCode(mathCode, v)| <= e
  {
    var w := VariableCode(mathCode, v);
    CodeChars(mathCode, v);
    OccursAtChars(t, w + " ", q);
    if q + |w| > e {
      assert false;
    }
  }

  /** A placeholder the match took whole stands in the padded object too. */
  lemma CodeInObject(t: string, mathCode: string, s: nat, e: nat, q: nat, v: nat)
    requires s < q && q + |VariableCode(mathCode, v)| <= e <= |t|
    requires t[q - 1] == ' ' && CodeAt(t, mathCode, q, v)
    ensures var o := Padded(t[s..e]);
      o[q - s] == ' ' && CodeAt(o, mathCode, q - s + 1, v)
  {
    var o := Padded(t[s..e]);
    var x := VariableCode(mathCode, v) + " ";
    var p := q - s + 1;
    OccursAtChars(t, x, q);
    OccursAtChars(o, x, p);
    assert o[p - 1] == t[q - 1];
    forall m | 0 <= m < |x| ensures o[p + m] == x[m] {
      if q + m < e {
        assert o[p + m] == t[q + m];
      }
    }
  }

  /** A sentinel inside the object comes from a placeholder the match took whole. */
  lemma ObjectPlaced(t: string, mathCode: string, c: nat, s: nat, e: nat, p: nat)
    requires SafeMathCode(mathCode) && Good(t, mathCode, c)
    requires s < e <= |t| && IsMarkup(t[s]) && EndsClear(t, s, e)
    requires p < |Padded(t[s..e])| && SentinelAt(Padded(t[s..e]), mathCode, p)
    ensures Placed(Padded(t[s..e]), mathCode, p, c)
  {
    ObjectSentinel(t, mathCode, s, e, p);
    var q := s + p - 1;
    assert Placed(t, mathCode, q, c);
    var v: nat :| v < c && CodeAt(t, mathCode, q, v);
    assert q != s by {
      SentinelAtChars(t, mathCode, q);
      assert t[q] == (mathCode + "_")[0];
    }
    CodeInsideMatch(t, mathCode, s, e, q, v);
    CodeInObject(t, mathCode, s, e, q, v);
  }

  /** The object cut out is itself a good text. */
  lemma ObjectGood(t: string, mathCode: string, c: nat, s: nat, e: nat)
    requires SafeMathCode(mathCode) && Good(t, mathCode, c)
    requires s < e <= |t| && IsMarkup(t[s]) && EndsClear(t, s, e)
    ensures Good(Padded(t[s..e]), mathCode, c)
  {
    forall p | 0 <= p < |Padded(t[s..e])| && SentinelAt(Padded(t[s..e]), mathCode, p)
      ensures Placed(Padded(t[s..e]), mathCode, p, c)
    {
      ObjectPlaced(t, mathCode, c, s, e, p);
    }
  }

  // ---------------------------------------------------------------------
  // The text left behind.

  /** A placeholder and the space after it hold no markup character. */
  lemma CodeNoMarkup(t: string, mathCode: string, p: nat, v: nat)
    requires SafeMathCode(mathCode) && CodeAt(t, mathCode, p, v)
    ensures forall k :: p <= k < p + |VariableCode(mathCode, v)| + 1 ==> k < |t| && !IsMarkup(t[k])
  {
    var x := VariableCode(mathCode, v) + " ";
    CodeChars(mathCode, v);
    OccursAtChars(t, x, p);
    forall k | p <= k < p + |x| ensures k < |t| && !IsMarkup(t[k]) {
      assert t[k] == x[k - p];
    }
  }

  /** A sentinel wholly before the cut was a placeholder of `t`, wholly before the cut. */
  lemma SubstitutedBefore(t: string, mathCode: string, c: nat, s: nat, e: nat, p: nat)
    requires SafeMathCode(mathCode) && Good(t, mathCode, c)
    requires s < e <= |t| && IsMarkup(t[s])
    requires p + |mathCode| + 1 <= s
    requires SentinelAt(Substitute(t, Span(s, e), Padded(VariableCode(mathCode, c))), mathCode, p)
    ensures Placed(Substitute(t, Span(s, e), Padded(VariableCode(mathCode, c))), mathCode, p, c + 1)
  {
    var u := Substitute(t, Span(s, e), Padded(VariableCode(mathCode, c)));
    SentinelAtChars(u, mathCode, p);
    SentinelAtChars(t, mathCode, p);
    assert SentinelAt(t, mathCode, p) by {
      forall m | 0 <= m < |mathCode| + 1 ensures t[p + m] == (mathCode + "_")[m] {
        assert u[p + m] == t[p + m];
      }
    }
    assert Placed(t, mathCode, p, c);
    var v: nat :| v < c && CodeAt(t, mathCode, p, v);
    var x := VariableCode(mathCode, v) + " ";
    CodeNoMarkup(t, mathCode, p, v);
    OccursAtChars(t, x, p);
    OccursAtChars(u, x, p);
    assert u[p - 1] == t[p - 1];
    forall m | 0 <= m < |x| ensures u[p + m] == x[m] {
      assert u[p + m] == t[p + m];
    }
    assert CodeAt(u, mathCode, p, v);
  }

  /** A sentinel wholly after the new placeholder was a placeholder of `t` after the cut. */
  lemma SubstitutedAfter(t: string, mathCode: string, c: nat, s: nat, e: nat, p: nat)
    requires SafeMathCode(mathCode) && Good(t, mathCode, c)
    requires s < e <= |t|
    requires s + |Padded(VariableCode(mathCode, c))| <= p
    requires SentinelAt(Substitute(t, Span(s, e), Padded(VariableCode(mathCode, c))), mathCode, p)
    ensures Placed(Substitute(t, Span(s, e), Padded(VariableCode(mathCode, c))), mathCode, p, c + 1)
  {
    var r := Padded(VariableCode(mathCode, c));
    var u := Substitute(t, Span(s, e), r);
    var p' := p - s - |r| + e;
    assert forall k :: s + |r| <= k < |u| ==> u[k] == t[k - s - |r| + e];
    SentinelAtChars(u, mathCode, p);
    SentinelAtChars(t, mathCode, p');
    assert SentinelAt(t, mathCode, p') by {
      forall m | 0 <= m < |mathCode| + 1 ensures t[p' + m] == (mathCode + "_")[m] {
        assert u[p + m] == t[p' + m];
      }
    }
    assert Placed(t, mathCode, p', c);
    var v: nat :| v < c && CodeAt(t, mathCode, p', v);
    var x := VariableCode(mathCode, v) + " ";
    OccursAtChars(t, x, p');
    OccursAtChars(u, x, p);
    assert u[p - 1] == ' ' by {
      if p > s + |r| { assert u[p - 1] == t[p' - 1]; } else { assert u[p - 1] == r[|r| - 1]; }
    }
    forall m | 0 <= m < |x| ensures u[p + m] == x[m] {
      assert u[p + m] == t[p' + m];
    }
    assert CodeAt(u, mathCode, p, v);
  }

  /** No sentinel starts across or inside a padded placeholder other than
      its own: the spaces around it and its digits stop every other one. */
  lemma NoStraySentinel(u: string, mathCode: string, c: nat, s: nat, p: nat)
    requires SafeMathCode(mathCode)
    requires OccursAt(u, Padded(VariableCode(mathCode, c)), s)
    requires p < s + |Padded(VariableCode(mathCode, c))| && s < p + |mathCode| + 1 && p != s + 1
    ensures !SentinelAt(u, mathCode, p)
  {
    var w := VariableCode(mathCode, c);
    var r := Padded(w);
    var n := |mathCode|;
    var x := mathCode + "_";
    CodeChars(mathCode, c);
    SentinelNoBlocker(mathCode);
    OccursAtChars(u, r, s);
    SentinelAtChars(u, mathCode, p);
    if p <= s {
      assert u[p + (s - p)] == r[0] != x[s - p];
    } else if p + n >= s + |r| - 1 {
      assert u[p + (s + |r| - 1 - p)] == r[|r| - 1] != x[s + |r| - 1 - p];
    } else if p - s - 1 <= n {
      var k := n - (p - s - 1);
      assert u[p + k] == r[n + 1] == w[n];
      assert x[k] == mathCode[k];
    } else {
      assert u[p] == r[p - s] == w[p - s - 1];
      assert x[0] == mathCode[0];
    }
  }

  /** The new placeholder stands between its spaces. */
  lemma NewPlaced(u: string, mathCode: string, c: nat, s: nat)
    requires OccursAt(u, Padded(VariableCode(mathCode, c)), s)
    ensures Placed(u, mathCode, s + 1, c + 1)
  {
    var w := VariableCode(mathCode, c);
    var r := Padded(w);
    OccursAtChars(u, r, s);
    OccursAtChars(u, w + " ", s + 1);
    assert u[s] == r[0];
    forall m | 0 <= m < |w + " "| ensures u[s + 1 + m] == (w + " ")[m] {
      assert u[s + (m + 1)] == r[m + 1];
    }
    assert CodeAt(u, mathCode, s + 1, c);
  }

  /** Replacing the match by the next placeholder keeps the text good. */
  lemma SubstituteGood(t: string, mathCode: string, c: nat, s: nat, e: nat)
    requires SafeMathCode(mathCode) && Good(t, mathCode, c)
    requires s < e <= |t| && IsMarkup(t[s])
    ensures Good(Substitute(t, Span(s, e), Padded(VariableCode(mathCode, c))), mathCode, c + 1)
  {
    var r := Padded(VariableCode(mathCode, c));
    var u := Substitute(t, Span(s, e), r);
    assert OccursAt(u, r, s) by {
      assert u[s..s + |r|] == r;
    }
    forall p | 0 <= p < |u| ensures SentinelAt(u, mathCode, p) ==> Placed(u, mathCode, p, c + 1) {
      if !SentinelAt(u, mathCode, p) {
      } else if p + |mathCode| + 1 <= s {
        SubstitutedBefore(t, mathCode, c, s, e, p);
      } else if s + |r| <= p {
        SubstitutedAfter(t, mathCode, c, s, e, p);
      } else if p == s + 1 {
        NewPlaced(u, mathCode, c, s);
      } else {
        NoStraySentinel(u, mathCode, c, s, p);
      }
    }
  }

  // ---------------------------------------------------------------------
  // The whole extraction.

  /** One extraction step: the object cut out names only earlier objects,
      and the text left behind stays good for the next number. */
  lemma HitStep(t: string, mathCode: string, p: Pattern, c: nat, sp: Span)
    requires SafeMathCode(mathCode) && Good(t, mathCode, c)
    requires WellFormed(p) && EndsClosed(p) && Search(p, t, 0) == Some(sp)
    ensures ObjectBelow(Padded(t[sp.start..sp.end]), mathCode, c)
    ensures Good(Substitute(t, sp, Padded(VariableCode(mathCode, c))), mathCode, c + 1)
  {
    SearchSpec(p, t, 0);
    MatchEndsClear(p, t, sp.start);
    ObjectGood(t, mathCode, c, sp.start, sp.end);
    TokensGood(Padded(t[sp.start..sp.end]), mathCode, c, 0);
    SubstituteGood(t, mathCode, c, sp.start, sp.end);
  }

  lemma NestedCons(o: string, rest: seq<string>, mathCode: string, c: nat)
    requires ObjectBelow(o, mathCode, c) && NestedFrom(rest, mathCode, c + 1)
    ensures NestedFrom([o] + rest, mathCode, c)
  {
    var objs := [o] + rest;
    forall k | 0 <= k < |objs| ensures ObjectBelow(objs[k], mathCode, c + k) {
      if k > 0 {
        assert objs[k] == rest[k - 1];
      }
    }
  }

  lemma {:induction false} ExtractNestedFrom(t: string, mathCode: string, ps: seq<Pattern>, c: nat)
    requires SafeMathCode(mathCode) && Good(t, mathCode, c)
    requires forall k :: 0 <= k < |ps| ==> WellFormed(ps[k]) && EndsClosed(ps[k])
    ensures NestedFrom(ExtractAll(t, mathCode, ps, c).objs, mathCode, c)
    decreases |ps|, MarkupCount(t)
  {
    if |ps| > 0 {
      match Search(ps[0], t, 0)
      case None =>
        ExtractNestedFrom(t, mathCode, ps[1..], c);
      case Some(sp) =>
        var rep := Padded(VariableCode(mathCode, c));
        PlaceholderMarkupFree(mathCode, c);
        SubstituteShrinks(t, sp, rep);
        HitStep(t, mathCode, ps[0], c, sp);
        var t' := Substitute(t, sp, rep);
        ExtractNestedFrom(t', mathCode, ps, c + 1);
        NestedCons(Padded(t[sp.start..sp.end]), ExtractAll(t', mathCode, ps, c + 1).objs, mathCode, c);
    }
  }

  /** When the text holds no sentinel, the objects `replace_latex_objects`
      returns are nested: each is padded by spaces and names only objects
      extracted before it. */
  lemma ExtractNested(text: string, mathCode: string, patterns: seq<Pattern>)
    requires SafeMathCode(mathCode) && NoSentinel(text, mathCode)
    requires forall k :: 0 <= k < |patterns| ==> WellFormed(patterns[k]) && EndsClosed(patterns[k])
    ensures NestedObjects(ExtractAll(text, mathCode, patterns, 0).objs, mathCode)
  {
    ExtractNestedFrom(text, mathCode, patterns, 0);
    var objs := ExtractAll(text, mathCode, patterns, 0).objs;
    forall k | 0 <= k < |objs| ensures NestedObject(objs, mathCode, k) {
      assert ObjectBelow(objs[k], mathCode, 0 + k);
    }
  }

  /** The patterns of `replace_latex_objects` have the required shape when the
      commands taken without arguments have no space in their names. */
  lemma ObjectPatternsClosed(mularg: seq<MulargCommand>, brace: bool, commandSimple: bool)
    requires forall k :: 0 <= k < |mularg| ==> forall j :: 0 <= j < |mularg[k].name| ==> mularg[k].name[j] != ' '
    ensures var ps := ObjectPatterns(mularg, brace, commandSimple);
      forall k :: 0 <= k < |ps| ==> EndsClosed(ps[k])
  {
    var ps := ObjectPatterns(mularg, brace, commandSimple);
    forall k | 0 <= k < |ps| ensures EndsClosed(ps[k]) {
      if k < 7 {
        assert ps[k] == ps[..7][k];
      } else if k < 7 + |mularg| {
        assert ps[k] == CommandArgs(mularg[k - 7].name, mularg[k - 7].nargs);
      }
    }
  }
}
