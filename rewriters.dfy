/** The payload rewriters of `process_latex`: each finds every match of a command or
    environment pattern, left to right and without overlap as `pattern.sub` does, and
    writes a replacement built from the match's groups. */
module Rewriters {
  import opened Wrappers
  import opened Text
  import opened Matchers
  import opened Placeholder
  import opened Extract

  /** The literal a name passed as `name` or, starred, as `name + r'\*'` matches. */
  function MatchedName(name: string, starred: bool): string
  {
    if starred then name + "*" else name
  }

  /** The name the rewriters write back: the pattern text itself, so a starred name keeps
      its regex backslash. */
  function WrittenName(name: string, starred: bool): string
  {
    if starred then name + "\\*" else name
  }

  // ---------------------------------------------------------------- groups

  /** The groups of `get_pattern_command_full(name)`: the options (empty when absent),
      the brace content and the end of the match. */
  datatype CommandParts = CommandParts(options: Span, content: Span, end: nat)

  function CommandPartsAt(s: string, i: nat, name: string): (r: Option<CommandParts>)
    requires i <= |s|
    ensures r.Some? ==> i < r.value.options.start <= r.value.options.end < r.value.content.start
    ensures r.Some? ==> r.value.content.start <= r.value.content.end == r.value.end - 1 && r.value.end <= |s|
    ensures r.Some? ==> s[i] == '\\' && s[r.value.content.start - 1] == '{' && s[r.value.end - 1] == '}'
    ensures r.Some? ==> i + 1 + |name| <= r.value.options.start && OccursAt(s, name, i + 1)
  {
    match CommandNameAt(s, i, Named(name))
    case None => None
    case Some(j) =>
      var k := BlanksEnd(s, j);
      match OptionsAt(s, k)
      case Some(o) =>
        var b := BlanksEnd(s, o);
        (match BraceAt(s, b)
         case None => None
         case Some(e) => Some(CommandParts(Span(k, o), Span(b + 1, e - 1), e)))
      case None =>
        (match BraceAt(s, k)
         case None => None
         case Some(e) => Some(CommandParts(Span(k, k), Span(k + 1, e - 1), e)))
  }

  /** The groups agree with the extractor's command matcher: same matches, same ends. */
  lemma CommandPartsAgree(s: string, i: nat, name: string)
    requires i <= |s|
    ensures CommandPartsAt(s, i, name).None? <==> CommandAt(s, i, Named(name)).None?
    ensures CommandPartsAt(s, i, name).Some? ==> CommandAt(s, i, Named(name)) == Some(CommandPartsAt(s, i, name).value.end)
  {
  }

  /** `n` brace groups after optional blanks from `j`: their contents and where they end. */
  function ArgSpans(s: string, j: nat, n: nat): (r: Option<(seq<Span>, nat)>)
    requires j <= |s|
    ensures r.Some? ==> |r.value.0| == n && j <= r.value.1 <= |s|
    ensures r.Some? ==> forall k :: 0 <= k < n ==> j < r.value.0[k].start <= r.value.0[k].end < r.value.1
    decreases n
  {
    if n == 0 then Some(([], j))
    else
      var b := BlanksEnd(s, j);
      match BraceAt(s, b)
      case None => None
      case Some(e) =>
        match ArgSpans(s, e, n - 1)
        case None => None
        case Some((spans, end)) => Some(([Span(b + 1, e - 1)] + spans, end))
  }

  lemma {:induction false} ArgSpansAgree(s: string, j: nat, n: nat)
    requires j <= |s|
    ensures ArgSpans(s, j, n).None? <==> ArgsFrom(s, j, n).None?
    ensures ArgSpans(s, j, n).Some? ==> ArgsFrom(s, j, n) == Some(ArgSpans(s, j, n).value.1)
    decreases n
  {
    if n > 0 {
      var b := BlanksEnd(s, j);
      if BraceAt(s, b).Some? {
        ArgSpansAgree(s, BraceAt(s, b).value, n - 1);
      }
    }
  }

  /** The groups of `get_pattern_command_full(name, n)`: `n` argument contents and the end;
      with no argument a non-letter must follow the name. */
  function ArgsPartsAt(s: string, i: nat, name: string, n: nat): (r: Option<(seq<Span>, nat)>)
    requires i <= |s|
    ensures r.Some? ==> |r.value.0| == n && i < r.value.1 <= |s| && s[i] == '\\'
    ensures r.Some? ==> forall k :: 0 <= k < n ==> i < r.value.0[k].start <= r.value.0[k].end <= |s|
  {
    match CommandNameAt(s, i, Named(name))
    case None => None
    case Some(j) =>
      if n == 0 then (if j < |s| && !IsLetter(s[j]) then Some(([], j)) else None)
      else ArgSpans(s, j, n)
  }

  lemma ArgsPartsAgree(s: string, i: nat, name: string, n: nat)
    requires i <= |s|
    ensures ArgsPartsAt(s, i, name, n).None? <==> CommandArgsAt(s, i, name, n).None?
    ensures ArgsPartsAt(s, i, name, n).Some? ==> CommandArgsAt(s, i, name, n) == Some(ArgsPartsAt(s, i, name, n).value.1)
  {
    if CommandNameAt(s, i, Named(name)).Some? {
      ArgSpansAgree(s, CommandNameAt(s, i, Named(name)).value, n);
    }
  }

  function Slice(s: string, sp: Span): string
    requires sp.start <= sp.end <= |s|
  {
    s[sp.start..sp.end]
  }

  /** Each content wrapped in braces, concatenated. */
  function Braced(contents: seq<string>): string
  {
    if |contents| == 0 then "" else "{" + contents[0] + "}" + Braced(contents[1..])
  }

  /** The argument contents, with the ones whose index is listed passed through `f`. */
  function Arguments(s: string, spans: seq<Span>, f: string -> string, selected: seq<nat>): (cs: seq<string>)
    requires forall k :: 0 <= k < |spans| ==> spans[k].start <= spans[k].end <= |s|
    ensures |cs| == |spans|
  {
    seq(|spans|, k requires 0 <= k < |spans| => if k in selected then f(Slice(s, spans[k])) else Slice(s, spans[k]))
  }

  /** `replace_newcommand`'s template: `#1`, `#2`, ... replaced one after the other by the
      arguments padded with spaces. */
  function Expand(template: string, args: seq<string>, n: nat): string
    requires n <= |args|
  {
    if n == 0 then template
    else ReplaceAll(Expand(template, args, n - 1), "#" + DecimalString(n), " " + args[n - 1] + " ")
  }

  // ---------------------------------------------------------------- rewriters

  datatype Rewriter =
    | SpecificEnv(f: string -> string, envName: string, envStarred: bool)       // process_specific_env
    | SpecificCommand(g: string -> string, cmdName: string, cmdStarred: bool)   // process_specific_command
    | Mularg(h: string -> string, command: MulargCommand)                      // process_mularg_command
    | DeleteFormat(format: string)                                             // delete_specific_format
    | Newcommand(macro: string, nargs: nat, template: string)                  // replace_newcommand
    | Bibnote                                                                  // remove_bibnote

  /** `process_specific_env`'s replacement at `i`: the environment with its content passed
      through `f`, and the name written as the pattern text. */
  function EnvRewrite(s: string, i: nat, f: string -> string, name: string, starred: bool): (r: Option<(nat, string)>)
    requires i <= |s|
    ensures r.Some? ==> i < r.value.0 <= |s| && s[i] == '\\'
  {
    match EnvPartsAt(s, i, Named(MatchedName(name, starred)))
    case None => None
    case Some(m) =>
      var options := if m.options.Some? then Slice(s, m.options.value) else "";
      var written := WrittenName(name, starred);
      Some((m.end, "\\begin{" + written + "}" + options + f(Slice(s, m.content)) + "\\end{" + written + "}"))
  }

  /** `process_specific_command`'s replacement at `i`. */
  function CommandRewrite(s: string, i: nat, f: string -> string, name: string, starred: bool): (r: Option<(nat, string)>)
    requires i <= |s|
    ensures r.Some? ==> i < r.value.0 <= |s| && s[i] == '\\'
  {
    match CommandPartsAt(s, i, MatchedName(name, starred))
    case None => None
    case Some(m) => Some((m.end, "\\" + WrittenName(name, starred) + Slice(s, m.options) + "{" + f(Slice(s, m.content)) + "}"))
  }

  /** `process_mularg_command`'s replacement at `i`: the listed arguments pass through `f`. */
  function MulargRewrite(s: string, i: nat, f: string -> string, c: MulargCommand): (r: Option<(nat, string)>)
    requires i <= |s|
    ensures r.Some? ==> i < r.value.0 <= |s| && s[i] == '\\'
  {
    match ArgsPartsAt(s, i, c.name, c.nargs)
    case None => None
    case Some((spans, e)) => Some((e, "\\" + c.name + Braced(Arguments(s, spans, f, c.translateArgs))))
  }

  /** `delete_specific_format`'s replacement at `i`: the content with a space on each side. */
  function DeleteRewrite(s: string, i: nat, name: string): (r: Option<(nat, string)>)
    requires i <= |s|
    ensures r.Some? ==> i < r.value.0 <= |s| && s[i] == '\\'
  {
    match CommandPartsAt(s, i, name)
    case None => None
    case Some(m) => Some((m.end, " " + Slice(s, m.content) + " "))
  }

  /** `replace_newcommand`'s replacement at `i`: the template with the arguments filled in. */
  function NewcommandRewrite(s: string, i: nat, name: string, n: nat, template: string): (r: Option<(nat, string)>)
    requires i <= |s|
    ensures r.Some? ==> i < r.value.0 <= |s| && s[i] == '\\'
  {
    match ArgsPartsAt(s, i, name, n)
    case None => None
    case Some((spans, e)) => Some((e, Expand(template, Arguments(s, spans, x => x, []), n)))
  }

  /** `remove_bibnote`'s replacement at `i`: nothing for a `note`, the match itself otherwise. */
  function BibnoteRewrite(s: string, i: nat): (r: Option<(nat, string)>)
    requires i <= |s|
    ensures r.Some? ==> i < r.value.0 <= |s| && s[i] == '\\'
    ensures r.Some? ==> r.value.1 == "" || r.value.1 == s[i..r.value.0]
  {
    match ArgsPartsAt(s, i, "bibinfo", 2)
    case None => None
    case Some((spans, e)) => Some((e, if Slice(s, spans[0]) == "note" then "" else s[i..e]))
  }

  /** A match of the rewriter's pattern at `i`: where it ends and what replaces it. */
  function RewriteAt(s: string, i: nat, rw: Rewriter): (r: Option<(nat, string)>)
    requires i <= |s|
    ensures r.Some? ==> i < r.value.0 <= |s| && s[i] == '\\'
  {
    match rw
    case SpecificEnv(f, name, starred) => EnvRewrite(s, i, f, name, starred)
    case SpecificCommand(f, name, starred) => CommandRewrite(s, i, f, name, starred)
    case Mularg(f, c) => MulargRewrite(s, i, f, c)
    case DeleteFormat(name) => DeleteRewrite(s, i, name)
    case Newcommand(name, n, template) => NewcommandRewrite(s, i, name, n, template)
    case Bibnote => BibnoteRewrite(s, i)
  }

  /** Every position's match, end and replacement, computed once. */
  predicate ValidRewrites(s: string, ms: seq<Option<(nat, string)>>)
  {
    |ms| == |s| + 1 && forall j :: 0 <= j < |ms| && ms[j].Some? ==> j < ms[j].value.0 <= |s|
  }

  function Rewrites(s: string, rw: Rewriter): (ms: seq<Option<(nat, string)>>)
    ensures ValidRewrites(s, ms)
  {
    seq(|s| + 1, j requires 0 <= j <= |s| => RewriteAt(s, j, rw))
  }

  /** `pattern.sub(..)` from `i` on: matches are taken left to right, and scanning resumes
      after each match. */
  function SubWith(s: string, ms: seq<Option<(nat, string)>>, i: nat): string
    requires ValidRewrites(s, ms) && i <= |s|
    decreases |s| - i
  {
    if i == |s| then ""
    else if ms[i].Some? then ms[i].value.1 + SubWith(s, ms, ms[i].value.0)
    else [s[i]] + SubWith(s, ms, i + 1)
  }

  function SubFrom(s: string, i: nat, rw: Rewriter): string
    requires i <= |s|
  {
    SubWith(s, Rewrites(s, rw), i)
  }

  function ProcessSpecificEnv(latex: string, f: string -> string, envName: string, starred: bool): string
  {
    SubFrom(latex, 0, SpecificEnv(f, envName, starred))
  }

  function ProcessSpecificCommand(latex: string, f: string -> string, commandName: string, starred: bool): string
  {
    SubFrom(latex, 0, SpecificCommand(f, commandName, starred))
  }

  function ProcessMulargCommand(latex: string, f: string -> string, command: MulargCommand): string
  {
    SubFrom(latex, 0, Mularg(f, command))
  }

  function DeleteSpecificFormat(latex: string, formatName: string): string
  {
    SubFrom(latex, 0, DeleteFormat(formatName))
  }

  function ReplaceNewcommand(name: string, nargs: nat, template: string, latex: string): string
  {
    SubFrom(latex, 0, Newcommand(name, nargs, template))
  }

  function RemoveBibnote(latex: string): string
  {
    SubFrom(latex, 0, Bibnote)
  }

  // ---------------------------------------------------------------- generic facts

  /** Every pattern starts with a backslash, so text without one is left alone. */
  lemma {:induction false} SubPlain(s: string, ms: seq<Option<(nat, string)>>, i: nat)
    requires ValidRewrites(s, ms) && i <= |s|
    requires forall j :: i <= j < |s| && ms[j].Some? ==> s[j] == '\\'
    requires '\\' !in s
    ensures SubWith(s, ms, i) == s[i..]
    decreases |s| - i
  {
    if i < |s| {
      SubPlain(s, ms, i + 1);
      assert s[i..] == [s[i]] + s[i + 1..];
    } else {
      assert s[i..] == "";
    }
  }

  /** No rewriter touches text without a backslash. */
  lemma SubFromPlain(s: string, rw: Rewriter)
    requires '\\' !in s
    ensures SubFrom(s, 0, rw) == s
  {
    var ms := Rewrites(s, rw);
    forall j | 0 <= j < |s| && ms[j].Some? ensures s[j] == '\\' {
      assert ms[j] == RewriteAt(s, j, rw);
    }
    SubPlain(s, ms, 0);
  }

  /** When every match would be replaced by its own text, the substitution changes nothing. */
  lemma {:induction false} SubIdentity(s: string, ms: seq<Option<(nat, string)>>, i: nat)
    requires ValidRewrites(s, ms) && i <= |s|
    requires forall j :: i <= j < |s| && ms[j].Some? ==> ms[j].value.1 == s[j..ms[j].value.0]
    ensures SubWith(s, ms, i) == s[i..]
    decreases |s| - i
  {
    if i == |s| {
      assert s[i..] == "";
    } else if ms[i].Some? {
      var e := ms[i].value.0;
      var rep := ms[i].value.1;
      assert rep == s[i..e];
      SubIdentity(s, ms, e);
      calc {
        SubWith(s, ms, i);
        rep + SubWith(s, ms, e);
        s[i..e] + s[e..];
        { assert s[i..] == s[i..e] + s[e..]; }
        s[i..];
      }
    } else {
      SubIdentity(s, ms, i + 1);
      calc {
        SubWith(s, ms, i);
        [s[i]] + SubWith(s, ms, i + 1);
        [s[i]] + s[i + 1..];
        { assert s[i..] == [s[i]] + s[i + 1..]; }
        s[i..];
      }
    }
  }

  /** A substitution whose replacements are never longer than their matches never
      lengthens the text. */
  lemma {:induction false} SubShrinks(s: string, ms: seq<Option<(nat, string)>>, i: nat)
    requires ValidRewrites(s, ms) && i <= |s|
    requires forall j :: i <= j < |s| && ms[j].Some? ==> |ms[j].value.1| <= ms[j].value.0 - j
    ensures |SubWith(s, ms, i)| <= |s| - i
    decreases |s| - i
  {
    if i < |s| {
      if ms[i].Some? {
        SubShrinks(s, ms, ms[i].value.0);
      } else {
        SubShrinks(s, ms, i + 1);
      }
    }
  }

  // ---------------------------------------------------------------- per rewriter

  /** What an environment match at `i` is made of: `\begin`, blanks, `{name}`, blanks,
      then the options or the content, and an end tag where the content stops. */
  lemma BeginTagFacts(s: string, i: nat, name: string)
    requires i <= |s| && BeginTagAt(s, i, Named(name)).Some?
    ensures var k := BlanksEnd(s, i + 6);
      && OccursAt(s, "\\begin", i) && k < |s| && s[k] == '{' && OccursAt(s, name + "}", k + 1)
      && BeginTagAt(s, i, Named(name)).value == (name, k + |name| + 2)
  {
  }

  /** What an environment match at `i` is made of: its header, blanks, then the options
      or the content, and an end tag where the content stops. */
  lemma EnvPartsFacts(s: string, i: nat, name: string)
    requires i <= |s| && EnvPartsAt(s, i, Named(name)).Some?
    ensures BeginTagAt(s, i, Named(name)).Some?
    ensures var m := EnvPartsAt(s, i, Named(name)).value;
      (if m.options.Some? then m.options.value.start else m.content.start) == BlanksEnd(s, BeginTagAt(s, i, Named(name)).value.1)
    ensures var m := EnvPartsAt(s, i, Named(name)).value; EndTagAt(s, m.content.end, name) == Some(m.end)
    ensures BeginTagAt(s, i, Named(name)).value.1 <= EnvPartsAt(s, i, Named(name)).value.end
  {
  }

  /** The replacement `process_specific_env` builds from the groups of a match. */
  lemma EnvRewriteOf(s: string, i: nat, f: string -> string, name: string, starred: bool)
    requires i <= |s| && EnvPartsAt(s, i, Named(MatchedName(name, starred))).Some?
    ensures var m := EnvPartsAt(s, i, Named(MatchedName(name, starred))).value;
      var w := WrittenName(name, starred);
      var options := if m.options.Some? then s[m.options.value.start..m.options.value.end] else "";
      EnvRewrite(s, i, f, name, starred) == Some((m.end, "\\begin{" + w + "}" + options + f(s[m.content.start..m.content.end]) + "\\end{" + w + "}"))
  {
  }

  /** What an end tag at `t` is made of. */
  lemma EndTagFacts(s: string, t: nat, name: string)
    requires t <= |s| && EndTagAt(s, t, name).Some?
    ensures OccursAt(s, "\\end", t)
    ensures OccursAt(s, "{" + name + "}", BlanksEnd(s, t + 4))
    ensures EndTagAt(s, t, name).value == BlanksEnd(s, t + 4) + |name| + 2
  {
  }

  /** A header `\begin{name}` with no blanks, read back from the text. */
  lemma BeginSlice(s: string, i: nat, h: nat, name: string)
    requires i + 6 < |s| && h == i + |name| + 8 && h <= |s|
    requires OccursAt(s, "\\begin", i) && s[i + 6] == '{' && OccursAt(s, name + "}", i + 7)
    ensures s[i..h] == "\\begin{" + name + "}"
  {
    assert s[i..i + 6] == "\\begin";
    assert s[i + 7..h] == name + "}";
    assert s[i..h] == s[i..i + 6] + [s[i + 6]] + s[i + 7..h];
  }

  /** A trailer `\end{name}` with no blanks, read back from the text. */
  lemma EndSlice(s: string, t: nat, e: nat, name: string)
    requires e == t + |name| + 6 && e <= |s|
    requires OccursAt(s, "\\end", t) && OccursAt(s, "{" + name + "}", t + 4)
    ensures s[t..e] == "\\end{" + name + "}"
  {
    assert s[t..t + 4] == "\\end";
    assert s[t + 4..e] == "{" + name + "}";
    assert s[t..e] == s[t..t + 4] + s[t + 4..e];
  }

  /** The text of an environment, cut at its header, options, content and trailer. */
  lemma EnvSlices(s: string, i: nat, h: nat, c: nat, t: nat, e: nat, name: string)
    requires i <= h <= c <= t <= e <= |s|
    requires s[i..h] == "\\begin{" + name + "}" && s[t..e] == "\\end{" + name + "}"
    ensures s[i..e] == "\\begin{" + name + "}" + s[h..c] + s[c..t] + "\\end{" + name + "}"
  {
    assert s[i..e] == s[i..h] + s[h..e];
    assert s[h..e] == s[h..c] + s[c..e];
    assert s[c..e] == s[c..t] + s[t..e];
  }

  /** An environment written without blanks in its tags, rewritten with the identity, is
      written back as it was. */
  lemma EnvKeeps(s: string, i: nat, name: string, f: string -> string)
    requires i <= |s| && forall x :: f(x) == x
    requires EnvPartsAt(s, i, Named(name)).Some?
    requires var m := EnvPartsAt(s, i, Named(name)).value;
      && i + 6 < |s| && s[i + 6] == '{'
      && (if m.options.Some? then m.options.value.start else m.content.start) == i + |name| + 8
      && m.end == m.content.end + |name| + 6
    ensures EnvRewrite(s, i, f, name, false).Some?
    ensures var r := EnvRewrite(s, i, f, name, false).value; r.1 == s[i..r.0]
  {
    var m := EnvPartsAt(s, i, Named(name)).value;
    var h := i + |name| + 8;
    var c := m.content.start;
    var t := m.content.end;
    EnvPartsFacts(s, i, name);
    assert s[i..h] == "\\begin{" + name + "}" by {
      BeginTagFacts(s, i, name);
      assert BlanksEnd(s, i + 6) == i + 6;
      BeginSlice(s, i, h, name);
    }
    assert s[t..m.end] == "\\end{" + name + "}" by {
      EndTagFacts(s, t, name);
      EndSlice(s, t, m.end, name);
    }
    var options := if m.options.Some? then s[m.options.value.start..m.options.value.end] else "";
    assert options == s[h..c];
    EnvSlices(s, i, h, c, t, m.end, name);
    EnvRewriteOf(s, i, f, name, false);
    assert f(s[c..t]) == s[c..t];
  }

  /** A starred name is never written back as it was matched, whatever the payload
      function: the output holds `name\*` where the input held `name*`. */
  lemma CommandStarredChanges(s: string, i: nat, name: string, f: string -> string)
    requires i <= |s|
    requires CommandRewrite(s, i, f, name, true).Some?
    ensures var r := CommandRewrite(s, i, f, name, true).value;
      && r.1[1..|name| + 3] == name + "\\*" && s[i + 1..i + |name| + 2] == name + "*"
      && r.1 != s[i..r.0]
  {
    var m := CommandPartsAt(s, i, name + "*").value;
    var tail := Slice(s, m.options) + "{" + f(Slice(s, m.content)) + "}";
    CommandRewriteOf(s, i, f, name, true);
    StarredCommandHead(name, tail);
    var r := CommandRewrite(s, i, f, name, true).value;
    assert s[i..r.0][|name| + 1] == s[i + |name| + 1] == (name + "*")[|name|];
  }

  /** The replacement `process_specific_command` builds from the groups of a match. */
  lemma CommandRewriteOf(s: string, i: nat, f: string -> string, name: string, starred: bool)
    requires i <= |s| && CommandPartsAt(s, i, MatchedName(name, starred)).Some?
    ensures var m := CommandPartsAt(s, i, MatchedName(name, starred)).value;
      CommandRewrite(s, i, f, name, starred) == Some((m.end, "\\" + WrittenName(name, starred) + Slice(s, m.options) + "{" + f(Slice(s, m.content)) + "}"))
  {
  }

  /** The first characters of a starred command as the rewriter writes it. */
  lemma StarredCommandHead(name: string, tail: string)
    ensures var t := "\\" + WrittenName(name, true) + tail;
      t[1..|name| + 3] == name + "\\*" && t[|name| + 1] == '\\'
  {
    var t := "\\" + WrittenName(name, true) + tail;
    assert t == "\\" + (name + "\\*") + tail;
    assert t[1..|name| + 3] == (name + "\\*");
  }

  /** The same quirk for environments: `\begin{abstract*}` comes out as
      `\begin{abstract\*}`. */
  lemma EnvStarredChanges(s: string, i: nat, name: string, f: string -> string)
    requires i <= |s|
    requires EnvRewrite(s, i, f, name, true).Some?
    ensures var r := EnvRewrite(s, i, f, name, true).value;
      r.1[..|name| + 10] == "\\begin{" + name + "\\*}" && r.1 != s[i..r.0]
  {
    EnvStarredWritten(s, i, f, name);
    EnvPartsFacts(s, i, name + "*");
    EnvStarredMatched(s, i, name);
    var r := EnvRewrite(s, i, f, name, true).value;
    var a := s[i..r.0];
    assert a[6] == s[i + 6] && a[|name| + 7] == s[i + |name| + 7];
    StarDiffers(a, r.1, name);
  }

  /** Two texts differ where one holds the star the other escapes. */
  lemma StarDiffers(a: string, b: string, name: string)
    requires |a| > |name| + 7 && |b| >= |name| + 10 && b[6] == '{' && b[|name| + 7] == '\\'
    requires a[6] != '{' || a[|name| + 7] == '*'
    ensures a != b
  {
    if a[6] != '{' {
      assert a[6] != b[6];
    } else {
      assert a[|name| + 7] != b[|name| + 7];
    }
  }

  /** The header the rewriter writes for a starred environment. */
  lemma EnvStarredWritten(s: string, i: nat, f: string -> string, name: string)
    requires i <= |s| && EnvPartsAt(s, i, Named(name + "*")).Some?
    ensures var r := EnvRewrite(s, i, f, name, true);
      && r.Some? && r.value.0 == EnvPartsAt(s, i, Named(name + "*")).value.end
      && |r.value.1| >= |name| + 10
      && r.value.1[..|name| + 10] == "\\begin{" + name + "\\*}"
      && r.value.1[6] == '{' && r.value.1[|name| + 7] == '\\'
  {
    var m := EnvPartsAt(s, i, Named(name + "*")).value;
    var options := if m.options.Some? then s[m.options.value.start..m.options.value.end] else "";
    assert MatchedName(name, true) == name + "*";
    EnvRewriteOf(s, i, f, name, true);
    var w := WrittenName(name, true);
    var y := f(s[m.content.start..m.content.end]);
    var t := "\\begin{" + w + "}" + options + y + "\\end{" + w + "}";
    assert EnvRewrite(s, i, f, name, true) == Some((m.end, t));
    StarredHead(name, options, y);
  }

  /** The header of a starred environment as it stands in the text: a blank after
      `\begin`, or the star right after the name. */
  lemma EnvStarredMatched(s: string, i: nat, name: string)
    requires i <= |s| && BeginTagAt(s, i, Named(name + "*")).Some?
    ensures i + |name| + 7 < BeginTagAt(s, i, Named(name + "*")).value.1
    ensures s[i + 6] != '{' || s[i + |name| + 7] == '*'
  {
    BeginTagFacts(s, i, name + "*");
    var k := BlanksEnd(s, i + 6);
    assert OccursAt(s, name + "*}", k + 1);
    assert s[k + 1 + |name|] == '*';
  }

  /** The first characters of a starred environment as the rewriter writes it. */
  lemma StarredHead(name: string, x: string, y: string)
    ensures var w := WrittenName(name, true);
      var t := "\\begin{" + w + "}" + x + y + "\\end{" + w + "}";
      |t| >= |name| + 10 && t[..|name| + 10] == "\\begin{" + name + "\\*}" && t[6] == '{' && t[|name| + 7] == '\\'
  {
    var w := WrittenName(name, true);
    var head := "\\begin{" + w + "}";
    assert head == "\\begin{" + name + "\\*}";
    var t := head + x + y + "\\end{" + w + "}";
    assert t == head + (x + y + "\\end{" + w + "}");
    assert t[..|head|] == head;
  }

  /** A command written without blanks, rewritten with the identity, is written back as
      it was. */
  lemma CommandKeeps(s: string, i: nat, name: string, f: string -> string)
    requires i <= |s| && forall x :: f(x) == x
    requires CommandPartsAt(s, i, name).Some?
    requires var m := CommandPartsAt(s, i, name).value; m.options.start == i + |name| + 1 && m.content.start == m.options.end + 1
    ensures CommandRewrite(s, i, f, name, false).Some?
    ensures var r := CommandRewrite(s, i, f, name, false).value; r.1 == s[i..r.0]
  {
    var m := CommandPartsAt(s, i, name).value;
    var o, b, c := m.options.start, m.options.end, m.content.end;
    assert MatchedName(name, false) == name && WrittenName(name, false) == name;
    CommandRewriteOf(s, i, f, name, false);
    var body := Slice(s, m.content);
    assert f(body) == body;
    assert Slice(s, m.options) == s[o..b] && body == s[b + 1..c];
    assert OccursAt(s, name, i + 1);
    CommandText(s, i, o, b, c, name);
  }

  /** A command's text cut at its name, options, brace and content. */
  lemma CommandText(s: string, i: nat, o: nat, b: nat, c: nat, name: string)
    requires i < o <= b < c < |s| && s[i] == '\\' && s[i + 1..o] == name && s[b] == '{' && s[c] == '}'
    ensures "\\" + name + s[o..b] + "{" + s[b + 1..c] + "}" == s[i..c + 1]
  {
    assert s[i..c + 1] == [s[i]] + s[i + 1..o] + s[o..c + 1];
    assert s[o..c + 1] == s[o..b] + [s[b]] + s[b + 1..c + 1];
    assert s[b + 1..c + 1] == s[b + 1..c] + [s[c]];
  }

  /** No blanks stand before any of the `n` brace groups from `j`. */
  predicate NoBlanksBetween(s: string, j: nat, n: nat)
    requires j <= |s|
    decreases n
  {
    n == 0 || (BlanksEnd(s, j) == j && match BraceAt(s, j) case None => true case Some(e) => NoBlanksBetween(s, e, n - 1))
  }

  /** The text of each span. */
  function Contents(s: string, spans: seq<Span>): (cs: seq<string>)
    requires forall k :: 0 <= k < |spans| ==> spans[k].start <= spans[k].end <= |s|
    ensures |cs| == |spans| && forall k :: 0 <= k < |spans| ==> cs[k] == s[spans[k].start..spans[k].end]
  {
    seq(|spans|, k requires 0 <= k < |spans| => Slice(s, spans[k]))
  }

  /** The first brace group with no blanks before it, then the rest. */
  lemma ArgSpansStep(s: string, j: nat, n: nat, e: nat, rest: seq<Span>, end: nat)
    requires j <= |s| && n > 0 && BlanksEnd(s, j) == j
    requires BraceAt(s, j) == Some(e) && ArgSpans(s, e, n - 1) == Some((rest, end))
    ensures ArgSpans(s, j, n) == Some(([Span(j + 1, e - 1)] + rest, end))
  {
  }

  /** The contents of a list of spans: the first one, then the rest. */
  lemma ContentsCons(s: string, a: nat, b: nat, rest: seq<Span>)
    requires a <= b <= |s|
    requires forall k :: 0 <= k < |rest| ==> rest[k].start <= rest[k].end <= |s|
    ensures forall k :: 0 <= k < |[Span(a, b)] + rest| ==> ([Span(a, b)] + rest)[k].start <= ([Span(a, b)] + rest)[k].end <= |s|
    ensures Braced(Contents(s, [Span(a, b)] + rest)) == "{" + s[a..b] + "}" + Braced(Contents(s, rest))
  {
    var first := Span(a, b);
    var spans := [first] + rest;
    forall k | 0 <= k < |spans| ensures spans[k].start <= spans[k].end <= |s| {
      if k > 0 {
        assert spans[k] == rest[k - 1];
      }
    }
    var cs := Contents(s, spans);
    assert spans[1..] == rest;
    assert cs[1..] == Contents(s, rest);
  }

  /** A brace group at `j` closing at `e`, then the text up to `end`. */
  lemma BraceSlices(s: string, j: nat, e: nat, end: nat)
    requires j + 2 <= e <= end <= |s| && s[j] == '{' && s[e - 1] == '}'
    ensures s[j..end] == "{" + s[j + 1..e - 1] + "}" + s[e..end]
  {
    assert [s[j]] == "{" && [s[e - 1]] == "}";
    assert s[j..end] == [s[j]] + s[j + 1..end];
    assert s[j + 1..end] == s[j + 1..e - 1] + s[e - 1..end];
    assert s[e - 1..end] == [s[e - 1]] + s[e..end];
  }

  /** Two texts that open with the same brace group and go on equally are equal. */
  lemma SameGroup(x: string, y: string, mid: string, c: string, d: string)
    requires x == "{" + mid + "}" + c && y == "{" + mid + "}" + d && c == d
    ensures x == y
  {
  }

  /** A brace group put in front of braced contents that give back the text
      after it gives back the text from the group on. */
  lemma BracedJoin(s: string, j: nat, e: nat, end: nat, rest: seq<Span>, spans: seq<Span>)
    requires j + 2 <= e <= end <= |s| && s[j] == '{' && s[e - 1] == '}'
    requires forall k :: 0 <= k < |rest| ==> rest[k].start <= rest[k].end <= |s|
    requires Braced(Contents(s, rest)) == s[e..end]
    requires spans == [Span(j + 1, e - 1)] + rest
    ensures forall k :: 0 <= k < |spans| ==> spans[k].start <= spans[k].end <= |s|
    ensures Braced(Contents(s, spans)) == s[j..end]
  {
    ContentsCons(s, j + 1, e - 1, rest);
    BraceSlices(s, j, e, end);
    SameGroup(Braced(Contents(s, spans)), s[j..end], s[j + 1..e - 1], Braced(Contents(s, rest)), s[e..end]);
  }

  /** Braced contents taken back out of brace groups with no blanks between them give the
      text they came from. */
  lemma {:induction false} BracedTight(s: string, j: nat, n: nat)
    requires j <= |s| && ArgSpans(s, j, n).Some? && NoBlanksBetween(s, j, n)
    ensures var r := ArgSpans(s, j, n).value; Braced(Contents(s, r.0)) == s[j..r.1]
    decreases n
  {
    if n == 0 {
      assert ArgSpans(s, j, n).value == ([], j);
      assert Contents(s, []) == [];
      assert s[j..j] == "";
    } else {
      var e := BraceAt(s, j).value;
      assert BlanksEnd(s, j) == j && ArgSpans(s, e, n - 1).Some? && NoBlanksBetween(s, e, n - 1);
      BracedTight(s, e, n - 1);
      var (rest, end) := ArgSpans(s, e, n - 1).value;
      ArgSpansStep(s, j, n, e, rest, end);
      BracedJoin(s, j, e, end, rest, [Span(j + 1, e - 1)] + rest);
    }
  }

  lemma MulargRewriteOf(s: string, i: nat, f: string -> string, c: MulargCommand)
    requires i <= |s| && ArgsPartsAt(s, i, c.name, c.nargs).Some?
    ensures var r := ArgsPartsAt(s, i, c.name, c.nargs).value;
      MulargRewrite(s, i, f, c) == Some((r.1, "\\" + c.name + Braced(Arguments(s, r.0, f, c.translateArgs))))
  {
  }

  /** With the identity as payload function the arguments are the contents themselves. */
  lemma ArgumentsIdentity(s: string, spans: seq<Span>, f: string -> string, selected: seq<nat>)
    requires forall k :: 0 <= k < |spans| ==> spans[k].start <= spans[k].end <= |s|
    requires forall x :: f(x) == x
    ensures Arguments(s, spans, f, selected) == Contents(s, spans)
  {
  }

  /** A backslash and a name, read back from the text. */
  lemma CommandHeadSlice(s: string, i: nat, name: string)
    requires i <= |s| && CommandNameAt(s, i, Named(name)).Some?
    ensures CommandNameAt(s, i, Named(name)).value == i + 1 + |name|
    ensures s[i..i + 1 + |name|] == "\\" + name
  {
    assert OccursAt(s, name, i + 1);
    assert s[i..i + 1 + |name|] == [s[i]] + s[i + 1..i + 1 + |name|];
  }

  lemma SliceJoin(s: string, a: nat, b: nat, c: nat)
    requires a <= b <= c <= |s|
    ensures s[a..c] == s[a..b] + s[b..c]
  {
  }

  /** A command written without blanks before its brace groups. */
  predicate TightCommand(s: string, i: nat, name: string, n: nat)
    requires i <= |s|
  {
    && CommandNameAt(s, i, Named(name)).Some?
    && var j := CommandNameAt(s, i, Named(name)).value;
      ArgSpans(s, j, n).Some? && NoBlanksBetween(s, j, n)
  }

  /** Such a command, its brace groups taken out and put back, is the text it came from. */
  lemma TightCommandText(s: string, i: nat, name: string, n: nat)
    requires i <= |s| && TightCommand(s, i, name, n)
    ensures var r := ArgSpans(s, CommandNameAt(s, i, Named(name)).value, n).value;
      "\\" + name + Braced(Contents(s, r.0)) == s[i..r.1]
  {
    var j := CommandNameAt(s, i, Named(name)).value;
    var r := ArgSpans(s, j, n).value;
    BracedTight(s, j, n);
    CommandHeadSlice(s, i, name);
    SliceJoin(s, i, j, r.1);
  }

  /** A multi-argument command written without blanks, rewritten with the identity, is
      written back as it was. */
  lemma MulargKeeps(s: string, i: nat, f: string -> string, c: MulargCommand)
    requires i <= |s| && (forall x :: f(x) == x) && c.nargs > 0
    requires TightCommand(s, i, c.name, c.nargs)
    ensures MulargRewrite(s, i, f, c).Some?
    ensures var r := MulargRewrite(s, i, f, c).value; r.1 == s[i..r.0]
  {
    var j := CommandNameAt(s, i, Named(c.name)).value;
    var r := ArgSpans(s, j, c.nargs).value;
    assert ArgsPartsAt(s, i, c.name, c.nargs) == Some(r);
    MulargRewriteOf(s, i, f, c);
    ArgumentsIdentity(s, r.0, f, c.translateArgs);
    TightCommandText(s, i, c.name, c.nargs);
  }

  /** Nesting depth read on a slice equals nesting depth read in place. */
  lemma {:induction false} NestingSlice(s: string, j: nat, m: nat, e: nat)
    requires j <= m <= e <= |s|
    ensures Nesting(s[j..e], 0, m - j) == Nesting(s, j, m)
    decreases m - j
  {
    if m > j {
      NestingSlice(s, j, m - 1, e);
      assert s[j..e][m - 1 - j] == s[m - 1];
    }
  }

  lemma NestingPrefix(s: string, m: nat)
    requires m <= |s|
    ensures Nesting(s[..m], 0, m) == Nesting(s, 0, m)
  {
    NestingSlice(s, 0, m, m);
    assert s[0..m] == s[..m];
  }

  lemma {:induction false} NestingAppend(a: string, b: string)
    ensures Nesting(a + b, 0, |a + b|) == Nesting(a, 0, |a|) + Nesting(b, 0, |b|)
    decreases |b|
  {
    if |b| > 0 {
      var b' := b[..|b| - 1];
      NestingAppend(a, b');
      assert (a + b)[..|a + b| - 1] == a + b';
      NestingPrefix(a + b, |a + b| - 1);
      NestingPrefix(b, |b| - 1);
    } else {
      assert a + b == a;
    }
  }

  /** Braces balanced the way the recursive brace pattern wants them. */
  predicate Balanced(c: string)
  {
    Nesting(c, 0, |c|) == 0 && forall m :: 0 <= m <= |c| ==> Nesting(c, 0, m) >= 0
  }

  lemma {:induction false} NestingFront(s: string, k: nat, m: nat)
    requires k < m <= |s|
    ensures Nesting(s, k, m) == Delta(s[k]) + Nesting(s, k + 1, m)
    decreases m - k
  {
    if m > k + 1 {
      NestingFront(s, k, m - 1);
    }
  }

  /** The scan for the closing brace stops at the first point where the depth it
      started with has been closed. */
  lemma {:induction false} CloseFromBalanced(s: string, k: nat, depth: nat, p: nat)
    requires k <= p < |s| && depth >= 1 && s[p] == '}'
    requires forall m :: k <= m <= p ==> depth + Nesting(s, k, m) >= 1
    requires depth + Nesting(s, k, p) == 1
    ensures CloseFrom(s, k, depth) == Some(p + 1)
    decreases p - k
  {
    if k < p {
      var d := depth + Delta(s[k]);
      var k1 := k + 1;
      forall m | k1 <= m <= p ensures Nesting(s, k, m) == Delta(s[k]) + Nesting(s, k1, m) {
        NestingFront(s, k, m);
      }
      assert Nesting(s, k, k1) == Delta(s[k]);
      CloseFromBalanced(s, k1, d, p);
    }
  }

  /** A brace group around balanced text is matched up to its own closing brace. */
  lemma BraceAroundBalanced(s: string, q: nat, c: string)
    requires q + |c| + 2 <= |s| && s[q] == '{' && s[q + 1..q + 1 + |c|] == c && s[q + 1 + |c|] == '}'
    requires Balanced(c)
    ensures BraceAt(s, q) == Some(q + |c| + 2)
  {
    var j := q + 1;
    var p := j + |c|;
    forall m | j <= m <= p ensures 1 + Nesting(s, j, m) >= 1 {
      NestingSlice(s, j, m, p);
      assert s[j..p][..m - j] == c[..m - j];
      NestingPrefix(c, m - j);
    }
    NestingSlice(s, j, p, p);
    CloseFromBalanced(s, j, 1, p);
  }

  /** The content group of a command is closed by its matching brace. */
  lemma BraceOfCommand(s: string, i: nat, name: string)
    requires i <= |s| && CommandPartsAt(s, i, name).Some?
    ensures var m := CommandPartsAt(s, i, name).value;
      BraceAt(s, m.content.start - 1) == Some(m.end)
  {
  }

  /** The text between a brace and its match has balanced braces. */
  lemma BracedContentBalanced(s: string, b: nat, e: nat)
    requires b < |s| && BraceAt(s, b) == Some(e)
    ensures Nesting(s[b + 1..e - 1], 0, e - 1 - (b + 1)) == 0
  {
    BraceAtMatches(s, b);
    assert Nesting(s, b, e) == Nesting(s, b, e - 1) - 1;
    NestingSlice(s, b, e - 1, e - 1);
    assert s[b..e - 1] == "{" + s[b + 1..e - 1];
    NestingAppend("{", s[b + 1..e - 1]);
  }

  /** Padding balanced text with a blank on each side keeps it balanced. */
  lemma PaddedBalanced(content: string)
    requires Nesting(content, 0, |content|) == 0
    ensures var p := " " + content + " ";
      Nesting(p, 0, |p|) == 0 && p[0] == ' ' && p[|p| - 1] == ' '
  {
    NestingAppend(" ", content);
    NestingAppend(" " + content, " ");
  }

  /** `delete_specific_format` keeps only the content of the command, and that content
      has balanced braces: the deletion leaves the brace balance of the text alone. */
  lemma DeleteFormatBalanced(s: string, i: nat, name: string)
    requires i <= |s|
    requires DeleteRewrite(s, i, name).Some?
    ensures var r := DeleteRewrite(s, i, name).value;
      Nesting(r.1, 0, |r.1|) == 0 && r.1[0] == ' ' && r.1[|r.1| - 1] == ' '
  {
    var m := CommandPartsAt(s, i, name).value;
    var b := m.content.start - 1;
    var e := m.end;
    assert DeleteRewrite(s, i, name).value.1 == " " + s[b + 1..e - 1] + " ";
    assert BraceAt(s, b) == Some(e) by {
      BraceOfCommand(s, i, name);
    }
    BracedContentBalanced(s, b, e);
    PaddedBalanced(s[b + 1..e - 1]);
  }

  /** A template without `#` expands to itself whatever the arguments. */
  lemma {:induction false} ExpandNoHash(template: string, args: seq<string>, n: nat)
    requires n <= |args| && '#' !in template
    ensures Expand(template, args, n) == template
  {
    if n > 0 {
      ExpandNoHash(template, args, n - 1);
      var p := "#" + DecimalString(n);
      forall i | 0 <= i && i + |p| <= |template| ensures !OccursAt(template, p, i) {
        assert template[i..i + |p|][0] == template[i];
      }
      ReplaceAllAbsent(template, p, " " + args[n - 1] + " ");
    }
  }

  /** No `\bibinfo{note}{..}` starts at `j`. */
  predicate NoNoteAt(s: string, j: nat)
    requires j <= |s|
  {
    var m := ArgsPartsAt(s, j, "bibinfo", 2);
    m.Some? ==> Slice(s, m.value.0[0]) != "note"
  }

  /** `remove_bibnote` only deletes: a `\bibinfo{note}{..}` becomes empty, any other
      `\bibinfo{..}{..}` is kept whole, so the text never grows and is unchanged when it
      holds no note. */
  lemma RemoveBibnoteDeletes(s: string)
    ensures |RemoveBibnote(s)| <= |s|
    ensures (forall j :: 0 <= j < |s| ==> NoNoteAt(s, j)) ==> RemoveBibnote(s) == s
  {
    var ms := Rewrites(s, Bibnote);
    forall j | 0 <= j < |s| && ms[j].Some? ensures ms[j].value.1 == "" || ms[j].value.1 == s[j..ms[j].value.0] {
      assert ms[j] == BibnoteRewrite(s, j);
    }
    SubShrinks(s, ms, 0);
    if forall j :: 0 <= j < |s| ==> NoNoteAt(s, j) {
      forall j | 0 <= j < |s| && ms[j].Some? ensures ms[j].value.1 == s[j..ms[j].value.0] {
        assert NoNoteAt(s, j);
        assert ms[j] == BibnoteRewrite(s, j);
      }
      SubIdentity(s, ms, 0);
    }
  }

  // ---------------------------------------------------------------- whole texts

  /** Positions without a match are copied. */
  lemma {:induction false} SubCopies(s: string, ms: seq<Option<(nat, string)>>, i: nat, k: nat)
    requires ValidRewrites(s, ms) && i <= k <= |s|
    requires forall j :: i <= j < k ==> ms[j].None?
    ensures SubWith(s, ms, i) == s[i..k] + SubWith(s, ms, k)
    decreases k - i
  {
    if i < k {
      assert ms[i].None?;
      SubCopies(s, ms, i + 1, k);
      assert SubWith(s, ms, i) == [s[i]] + SubWith(s, ms, i + 1);
      assert s[i..k] == [s[i]] + s[i + 1..k];
      assert [s[i]] + (s[i + 1..k] + SubWith(s, ms, k)) == ([s[i]] + s[i + 1..k]) + SubWith(s, ms, k);
    }
  }

  /** A text with one match, from `a` to `e`, becomes the text around it with the
      replacement in between. */
  lemma SubOneMatch(s: string, ms: seq<Option<(nat, string)>>, a: nat, e: nat, rep: string)
    requires ValidRewrites(s, ms) && a < |s| && ms[a] == Some((e, rep))
    requires forall j :: 0 <= j < |s| && (j < a || e <= j) ==> ms[j].None?
    ensures SubWith(s, ms, 0) == s[..a] + rep + s[e..]
  {
    SubCopies(s, ms, e, |s|);
    assert SubWith(s, ms, |s|) == [];
    assert SubWith(s, ms, e) == s[e..];
    assert SubWith(s, ms, a) == rep + s[e..];
    SubCopies(s, ms, 0, a);
    assert s[0..a] == s[..a];
  }

  /** Every match starts at a backslash. */
  lemma MatchesAtBackslash(s: string, rw: Rewriter)
    ensures forall j :: 0 <= j < |s| && s[j] != '\\' ==> Rewrites(s, rw)[j].None?
  {
    forall j | 0 <= j < |s| && s[j] != '\\' ensures Rewrites(s, rw)[j].None? {
      assert Rewrites(s, rw)[j] == RewriteAt(s, j, rw);
    }
  }

  /** An environment whose tags are written without blanks, so that the rewriter
      writes back what it matched. */
  predicate TightEnv(s: string, i: nat, name: string)
    requires i <= |s|
  {
    EnvPartsAt(s, i, Named(name)).Some? ==>
      var m := EnvPartsAt(s, i, Named(name)).value;
      && i + 6 < |s| && s[i + 6] == '{'
      && (if m.options.Some? then m.options.value.start else m.content.start) == i + |name| + 8
      && m.end == m.content.end + |name| + 6
  }

  /** At one position: no match, or a match written back as it was. */
  lemma EnvKeepsAt(s: string, j: nat, f: string -> string, name: string)
    requires j <= |s| && (forall x :: f(x) == x) && TightEnv(s, j, name)
    ensures var r := RewriteAt(s, j, SpecificEnv(f, name, false)); r.Some? ==> r.value.1 == s[j..r.value.0]
  {
    assert MatchedName(name, false) == name;
    if EnvPartsAt(s, j, Named(name)).Some? {
      EnvKeeps(s, j, name, f);
    }
  }

  /** `process_specific_env` with the identity leaves a text alone when every
      environment it matches is written without blanks in its tags. */
  lemma ProcessSpecificEnvKeeps(latex: string, f: string -> string, envName: string)
    requires forall x :: f(x) == x
    requires forall j :: 0 <= j < |latex| ==> TightEnv(latex, j, envName)
    ensures ProcessSpecificEnv(latex, f, envName, false) == latex
  {
    var ms := Rewrites(latex, SpecificEnv(f, envName, false));
    forall j | 0 <= j < |latex| && ms[j].Some? ensures ms[j].value.1 == latex[j..ms[j].value.0] {
      assert ms[j] == RewriteAt(latex, j, SpecificEnv(f, envName, false));
      EnvKeepsAt(latex, j, f, envName);
    }
    SubIdentity(latex, ms, 0);
  }

  /** A command written without blanks before its options and brace. */
  predicate TightCmd(s: string, i: nat, name: string)
    requires i <= |s|
  {
    CommandPartsAt(s, i, name).Some? ==>
      var m := CommandPartsAt(s, i, name).value;
      m.options.start == i + |name| + 1 && m.content.start == m.options.end + 1
  }

  /** At one position: no match, or a match written back as it was. */
  lemma CommandKeepsAt(s: string, j: nat, f: string -> string, name: string)
    requires j <= |s| && (forall x :: f(x) == x) && TightCmd(s, j, name)
    ensures var r := RewriteAt(s, j, SpecificCommand(f, name, false)); r.Some? ==> r.value.1 == s[j..r.value.0]
  {
    assert MatchedName(name, false) == name;
    if CommandPartsAt(s, j, name).Some? {
      CommandKeeps(s, j, name, f);
    }
  }

  /** `process_specific_command` with the identity leaves a text alone when every
      command it matches is written without blanks. */
  lemma ProcessSpecificCommandKeeps(latex: string, f: string -> string, commandName: string)
    requires forall x :: f(x) == x
    requires forall j :: 0 <= j < |latex| ==> TightCmd(latex, j, commandName)
    ensures ProcessSpecificCommand(latex, f, commandName, false) == latex
  {
    var ms := Rewrites(latex, SpecificCommand(f, commandName, false));
    forall j | 0 <= j < |latex| && ms[j].Some? ensures ms[j].value.1 == latex[j..ms[j].value.0] {
      assert ms[j] == RewriteAt(latex, j, SpecificCommand(f, commandName, false));
      CommandKeepsAt(latex, j, f, commandName);
    }
    SubIdentity(latex, ms, 0);
  }

  /** `process_mularg_command` with the identity leaves a text alone when every
      command it matches is written without blanks between its arguments. */
  lemma ProcessMulargCommandKeeps(latex: string, f: string -> string, command: MulargCommand)
    requires forall x :: f(x) == x
    requires command.nargs > 0
    requires forall j :: 0 <= j < |latex| && ArgsPartsAt(latex, j, command.name, command.nargs).Some? ==>
      NoBlanksBetween(latex, CommandNameAt(latex, j, Named(command.name)).value, command.nargs)
    ensures ProcessMulargCommand(latex, f, command) == latex
  {
    var ms := Rewrites(latex, Mularg(f, command));
    forall j | 0 <= j < |latex| && ms[j].Some? ensures ms[j].value.1 == latex[j..ms[j].value.0] {
      assert ms[j] == MulargRewrite(latex, j, f, command);
      assert TightCommand(latex, j, command.name, command.nargs);
      MulargKeeps(latex, j, f, command);
    }
    SubIdentity(latex, ms, 0);
  }

  /** The text `\name{x}`. */
  function Invocation(name: string, x: string): (t: string)
    ensures |t| == |name| + |x| + 3 && t[0] == '\\' && t[1..1 + |name|] == name && t[1 + |name|] == '{'
    ensures t[2 + |name|..2 + |name| + |x|] == x && t[2 + |name| + |x|] == '}'
  {
    var t := "\\" + name + "{" + x + "}";
    assert t == "\\" + name + ("{" + x + "}");
    assert t[1 + |name|..] == "{" + x + "}";
    t
  }

  /** `\name{x}` is written out in `s` at `i`. */
  predicate InvocationAt(s: string, i: nat, name: string, x: string)
  {
    && i + |name| + |x| + 3 <= |s| && s[i] == '\\' && s[i + 1..i + 1 + |name|] == name
    && s[i + 1 + |name|] == '{' && s[i + 2 + |name|..i + 2 + |name| + |x|] == x && s[i + 2 + |name| + |x|] == '}'
  }

  /** The text `\name{x}` in the middle of a document is written out there. */
  lemma InvocationInText(a: string, name: string, x: string, b: string)
    ensures InvocationAt(a + Invocation(name, x) + b, |a|, name, x)
  {
    var mid := Invocation(name, x);
    var s := a + mid + b;
    var i := |a|;
    assert s[i..i + |mid|] == mid;
    assert s[i + 1..i + 1 + |name|] == mid[1..1 + |name|];
    assert s[i + 2 + |name|..i + 2 + |name| + |x|] == mid[2 + |name|..2 + |name| + |x|];
    assert s[i] == mid[0] && s[i + 1 + |name|] == mid[1 + |name|] && s[i + 2 + |name| + |x|] == mid[2 + |name| + |x|];
  }

  /** The command name of `\name{x}` and its brace group, as the matchers read them. */
  lemma NameAndGroup(s: string, i: nat, name: string, x: string)
    requires |name| > 0 && Balanced(x) && InvocationAt(s, i, name, x)
    ensures var j := i + 1 + |name|;
      CommandNameAt(s, i, Named(name)) == Some(j) && BlanksEnd(s, j) == j && BraceAt(s, j) == Some(j + |x| + 2)
  {
    var j := i + 1 + |name|;
    assert OccursAt(s, name, i + 1);
    assert CommandNameAt(s, i, Named(name)) == Some(j);
    assert BlanksEnd(s, j) == j;
    BraceAroundBalanced(s, j, x);
  }

  /** `\name{x}` at `i`, as the command matcher reads it. */
  lemma CommandLayout(s: string, i: nat, name: string, x: string)
    requires |name| > 0 && Balanced(x) && InvocationAt(s, i, name, x)
    ensures var j := i + 1 + |name|;
      CommandPartsAt(s, i, name) == Some(CommandParts(Span(j, j), Span(j + 1, j + 1 + |x|), j + |x| + 2))
  {
    var j := i + 1 + |name|;
    NameAndGroup(s, i, name, x);
    assert OptionsAt(s, j).None?;
  }

  /** `\name{x}` at `i`, as the one-argument matcher reads it. */
  lemma ArgsLayout(s: string, i: nat, name: string, x: string)
    requires |name| > 0 && Balanced(x) && InvocationAt(s, i, name, x)
    ensures var j := i + 1 + |name|;
      ArgsPartsAt(s, i, name, 1) == Some(([Span(j + 1, j + 1 + |x|)], j + |x| + 2))
  {
    var j := i + 1 + |name|;
    var e := j + |x| + 2;
    NameAndGroup(s, i, name, x);
    assert ArgSpans(s, e, 0) == Some(([], e));
    assert ArgSpans(s, j, 1) == Some(([Span(j + 1, e - 1)] + [], e));
    assert [Span(j + 1, e - 1)] + [] == [Span(j + 1, e - 1)];
  }

  /** Every position outside the middle piece of `a + mid + b` holds a character of `a`
      or of `b`. */
  lemma OutsideMiddle(a: string, mid: string, b: string)
    requires '\\' !in a && '\\' !in b
    ensures var s := a + mid + b;
      forall j :: 0 <= j < |s| && (j < |a| || |a| + |mid| <= j) ==> s[j] != '\\'
  {
    var s := a + mid + b;
    forall j | 0 <= j < |s| && (j < |a| || |a| + |mid| <= j) ensures s[j] != '\\' {
      if j < |a| { assert s[j] == a[j]; } else { assert s[j] == b[j - |a| - |mid|]; }
    }
  }

  /** A document whose only backslash-led match is the middle piece: that piece is
      replaced and the rest is kept. */
  lemma SubInMiddle(a: string, mid: string, b: string, rw: Rewriter, rep: string)
    requires '\\' !in a && '\\' !in b && |mid| > 0
    requires RewriteAt(a + mid + b, |a|, rw) == Some((|a| + |mid|, rep))
    ensures SubFrom(a + mid + b, 0, rw) == a + rep + b
  {
    var s := a + mid + b;
    var ms := Rewrites(s, rw);
    assert ms[|a|] == RewriteAt(s, |a|, rw);
    MatchesAtBackslash(s, rw);
    SubOneMiddle(a, mid, b, ms, rep);
  }

  /** The same for any match table that only matches at backslashes. */
  lemma SubOneMiddle(a: string, mid: string, b: string, ms: seq<Option<(nat, string)>>, rep: string)
    requires '\\' !in a && '\\' !in b && |mid| > 0
    requires ValidRewrites(a + mid + b, ms) && ms[|a|] == Some((|a| + |mid|, rep))
    requires forall j :: 0 <= j < |a + mid + b| && (a + mid + b)[j] != '\\' ==> ms[j].None?
    ensures SubWith(a + mid + b, ms, 0) == a + rep + b
  {
    var s := a + mid + b;
    var e := |a| + |mid|;
    OutsideMiddle(a, mid, b);
    SubOneMatch(s, ms, |a|, e, rep);
    assert s[..|a|] == a && s[e..] == b;
  }

  /** A rewriter that replaces every `\name{x}` by `rep`, on a document holding one such
      use and no other backslash: that use is replaced and the rest is kept. */
  lemma SubAtInvocation(a: string, b: string, name: string, x: string, rw: Rewriter, rep: string)
    requires '\\' !in a && '\\' !in b
    requires forall s: string, i: nat :: i <= |s| && InvocationAt(s, i, name, x) ==>
      RewriteAt(s, i, rw) == Some((i + |Invocation(name, x)|, rep))
    ensures SubFrom(a + Invocation(name, x) + b, 0, rw) == a + rep + b
  {
    InvocationInText(a, name, x, b);
    SubInMiddle(a, Invocation(name, x), b, rw, rep);
  }

  /** The command rewrite where `\name{x}` stands. */
  lemma CommandAtInvocation(s: string, i: nat, f: string -> string, commandName: string, x: string)
    requires |commandName| > 0 && Balanced(x) && InvocationAt(s, i, commandName, x)
    ensures RewriteAt(s, i, SpecificCommand(f, commandName, false))
      == Some((i + |Invocation(commandName, x)|, Invocation(commandName, f(x))))
  {
    CommandLayout(s, i, commandName, x);
    assert MatchedName(commandName, false) == commandName && WrittenName(commandName, false) == commandName;
    assert Invocation(commandName, f(x)) == "\\" + commandName + "" + "{" + f(x) + "}";
  }

  /** `process_specific_command` on a document holding one command: the command is
      written back with its content passed through `f`, the rest is kept. */
  lemma ProcessSpecificCommandOne(a: string, f: string -> string, commandName: string, x: string, b: string)
    requires |commandName| > 0 && Balanced(x)
    requires '\\' !in a && '\\' !in b
    ensures ProcessSpecificCommand(a + Invocation(commandName, x) + b, f, commandName, false)
      == a + Invocation(commandName, f(x)) + b
  {
    var rw := SpecificCommand(f, commandName, false);
    forall s: string, i: nat | i <= |s| && InvocationAt(s, i, commandName, x)
      ensures RewriteAt(s, i, rw) == Some((i + |Invocation(commandName, x)|, Invocation(commandName, f(x))))
    {
      CommandAtInvocation(s, i, f, commandName, x);
    }
    SubAtInvocation(a, b, commandName, x, rw, Invocation(commandName, f(x)));
  }

  /** The deletion's replacement where `\name{x}` stands. */
  lemma DeleteAtInvocation(s: string, i: nat, formatName: string, x: string)
    requires |formatName| > 0 && Balanced(x) && InvocationAt(s, i, formatName, x)
    ensures RewriteAt(s, i, DeleteFormat(formatName)) == Some((i + |Invocation(formatName, x)|, " " + x + " "))
  {
    CommandLayout(s, i, formatName, x);
  }

  /** `delete_specific_format` on a document holding one command: the command is
      replaced by its content between two spaces, the rest is kept. */
  lemma DeleteSpecificFormatOne(a: string, formatName: string, x: string, b: string)
    requires |formatName| > 0 && Balanced(x)
    requires '\\' !in a && '\\' !in b
    ensures DeleteSpecificFormat(a + Invocation(formatName, x) + b, formatName) == a + (" " + x + " ") + b
  {
    var rw := DeleteFormat(formatName);
    forall s: string, i: nat | i <= |s| && InvocationAt(s, i, formatName, x)
      ensures RewriteAt(s, i, rw) == Some((i + |Invocation(formatName, x)|, " " + x + " "))
    {
      DeleteAtInvocation(s, i, formatName, x);
    }
    SubAtInvocation(a, b, formatName, x, rw, " " + x + " ");
  }

  /** `replace_newcommand`'s replacement where a one-argument use `\name{x}` stands. */
  lemma NewcommandAtInvocation(s: string, i: nat, name: string, x: string, template: string)
    requires |name| > 0 && Balanced(x) && InvocationAt(s, i, name, x)
    ensures RewriteAt(s, i, Newcommand(name, 1, template)) == Some((i + |Invocation(name, x)|, Expand(template, [x], 1)))
  {
    var j := i + 1 + |name|;
    var sp := [Span(j + 1, j + 1 + |x|)];
    assert |Invocation(name, x)| == |name| + |x| + 3;
    ArgsLayout(s, i, name, x);
    assert s[j + 1..j + 1 + |x|] == x;
    OneArgument(s, sp, x);
  }

  /** The arguments of a single span holding `x`, untranslated, are `[x]`. */
  lemma OneArgument(s: string, sp: seq<Span>, x: string)
    requires |sp| == 1 && sp[0].start <= sp[0].end <= |s| && s[sp[0].start..sp[0].end] == x
    ensures Arguments(s, sp, y => y, []) == [x]
  {
    var args := Arguments(s, sp, y => y, []);
    assert args[0] == Slice(s, sp[0]);
  }

  /** `replace_newcommand` for a one-argument macro on a document holding one use:
      the use becomes the template with `#1` filled in, the rest is kept. */
  lemma ReplaceNewcommandOne(a: string, name: string, x: string, b: string, template: string)
    requires |name| > 0 && Balanced(x)
    requires '\\' !in a && '\\' !in b
    ensures ReplaceNewcommand(name, 1, template, a + Invocation(name, x) + b) == a + Expand(template, [x], 1) + b
  {
    var rw := Newcommand(name, 1, template);
    forall s: string, i: nat | i <= |s| && InvocationAt(s, i, name, x)
      ensures RewriteAt(s, i, rw) == Some((i + |Invocation(name, x)|, Expand(template, [x], 1)))
    {
      NewcommandAtInvocation(s, i, name, x, template);
    }
    SubAtInvocation(a, b, name, x, rw, Expand(template, [x], 1));
  }

  /** Text without braces is balanced. */
  lemma {:induction false} BalancedNoBraces(y: string)
    requires '{' !in y && '}' !in y
    ensures Balanced(y)
  {
    forall m | 0 <= m <= |y| ensures Nesting(y, 0, m) == 0 {
      NestingFlat(y, m);
    }
  }

  lemma {:induction false} NestingFlat(y: string, m: nat)
    requires m <= |y| && '{' !in y && '}' !in y
    ensures Nesting(y, 0, m) == 0
    decreases m
  {
    if m > 0 {
      NestingFlat(y, m - 1);
    }
  }

  /** Two balanced texts side by side are balanced. */
  lemma BalancedConcat(a: string, b: string)
    requires Balanced(a) && Balanced(b)
    ensures Balanced(a + b)
  {
    var s := a + b;
    forall m | 0 <= m <= |s| ensures Nesting(s, 0, m) >= 0 {
      NestingPrefix(s, m);
      if m <= |a| {
        assert s[..m] == a[..m];
        NestingPrefix(a, m);
      } else {
        assert s[..m] == a + b[..m - |a|];
        NestingAppend(a, b[..m - |a|]);
        NestingPrefix(b, m - |a|);
      }
    }
    NestingAppend(a, b);
  }

  /** A balanced text between a pair of braces is balanced. */
  lemma BalancedBraced(x: string)
    requires Balanced(x)
    ensures Balanced("{" + x + "}")
  {
    var s := "{" + x + "}";
    forall m | 0 <= m <= |s| ensures Nesting(s, 0, m) >= 0 {
      NestingPrefix(s, m);
      if 1 <= m <= |x| + 1 {
        assert s[..m] == "{" + x[..m - 1];
        NestingAppend("{", x[..m - 1]);
        NestingPrefix(x, m - 1);
      } else if m == |x| + 2 {
        assert s[..m] == s;
        NestingAppend("{" + x, "}");
        NestingAppend("{", x);
      }
    }
    NestingAppend("{" + x, "}");
    NestingAppend("{", x);
  }

  /** `\name{x}` is balanced when `x` is and the name holds no brace. */
  lemma InvocationBalanced(name: string, x: string)
    requires '{' !in name && '}' !in name && Balanced(x)
    ensures Balanced(Invocation(name, x))
  {
    BalancedNoBraces("\\" + name);
    BalancedBraced(x);
    BalancedConcat("\\" + name, "{" + x + "}");
    assert Invocation(name, x) == ("\\" + name) + ("{" + x + "}");
  }

  /** One pass only: a format command nested in another survives the deletion of
      the outer one. */
  lemma DeleteFormatNestedSurvives(formatName: string, x: string)
    requires |formatName| > 0 && '{' !in formatName && '}' !in formatName && Balanced(x)
    ensures var inner := Invocation(formatName, x);
      DeleteSpecificFormat(Invocation(formatName, inner), formatName) == " " + inner + " "
  {
    InvocationBalanced(formatName, x);
    DeleteSpecificFormatAlone(formatName, Invocation(formatName, x));
  }

  /** A document that is one format command becomes its content between spaces. */
  lemma DeleteSpecificFormatAlone(formatName: string, x: string)
    requires |formatName| > 0 && Balanced(x)
    ensures DeleteSpecificFormat(Invocation(formatName, x), formatName) == " " + x + " "
  {
    var s := Invocation(formatName, x);
    var e: string := "";
    assert e + s + e == s;
    assert e + (" " + x + " ") + e == " " + x + " ";
    DeleteSpecificFormatOne(e, formatName, x, e);
  }
}
