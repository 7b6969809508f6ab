/** The LaTeX object patterns of the extractor, written as scanners instead of
    regular expressions. Each `...At` function says whether a match starts at
    position `i` and, if so, where it ends; `Search` finds the leftmost match,
    as `regex.search` does. */
module Matchers {
  import opened Wrappers
  import opened Text

  datatype Span = Span(start: nat, end: nat)

  /** How a name inside a pattern is given: any name, or a fixed one. */
  datatype NameSpec = AnyName | Named(name: string)

  datatype Pattern =
    | Delimited(open: string, close: string)       // `$$..$$`, `$..$`, `\[..\]`, `\(..\)`
    | Env(env: NameSpec)                           // `\begin{x}[opt] .. \end{x}`
    | SetCommand                                   // `\setxxx \name {..}`
    | SetBraced                                    // `\setxxx {\name} {..}`
    | CommandArgs(command: string, nargs: nat)     // `\name{..}{..}` with nargs arguments
    | Command(cmd: NameSpec)                       // `\name[opt]{..}`
    | Brace                                        // `{..}` with balanced braces
    | CommandSimple                                // `\name`

  /** The characters every match starts with; placeholders contain none. */
  predicate IsMarkup(c: char) { c == '\\' || c == '$' || c == '{' }

  predicate WellFormed(p: Pattern) {
    p.Delimited? ==> |p.open| > 0 && IsMarkup(p.open[0])
  }

  /** First index at or after `j` that is not a letter (`[a-zA-Z]*`). */
  function LettersEnd(s: string, j: nat): (r: nat)
    requires j <= |s|
    ensures j <= r <= |s| && (r < |s| ==> !IsLetter(s[r]))
    ensures forall k :: j <= k < r ==> IsLetter(s[k])
    decreases |s| - j
  {
    if j < |s| && IsLetter(s[j]) then LettersEnd(s, j + 1) else j
  }

  /** First index at or after `j` that is neither a space nor a tab (`[ \t]*`). */
  function BlanksEnd(s: string, j: nat): (r: nat)
    requires j <= |s|
    ensures j <= r <= |s| && (r < |s| ==> s[r] != ' ' && s[r] != '\t')
    ensures forall k :: j <= k < r ==> s[k] == ' ' || s[k] == '\t'
    decreases |s| - j
  {
    if j < |s| && (s[j] == ' ' || s[j] == '\t') then BlanksEnd(s, j + 1) else j
  }

  /** The index of the first `[` or `]` at or after `j`. */
  function BracketFrom(s: string, j: nat): (r: nat)
    requires j <= |s|
    ensures j <= r <= |s| && (r < |s| ==> s[r] == '[' || s[r] == ']')
    ensures forall k :: j <= k < r ==> s[k] != '[' && s[k] != ']'
    decreases |s| - j
  {
    if j == |s| || s[j] == '[' || s[j] == ']' then j else BracketFrom(s, j + 1)
  }

  /** The options group `\[[^\[\]]*?\]` at `j`: where it ends, if present. */
  function OptionsAt(s: string, j: nat): (r: Option<nat>)
    requires j <= |s|
    ensures r.Some? ==> j < r.value <= |s| && s[j] == '[' && s[r.value - 1] == ']'
    ensures r.Some? ==> forall k :: j < k < r.value - 1 ==> s[k] != '[' && s[k] != ']'
  {
    if j < |s| && s[j] == '[' then
      var k := BracketFrom(s, j + 1);
      if k < |s| && s[k] == ']' then Some(k + 1) else None
    else None
  }

  // ---------------------------------------------------------------------
  // Balanced braces: the recursive pattern `\{((?:[^{}]++|(?0))*+)\}`.

  function Delta(c: char): int { if c == '{' then 1 else if c == '}' then -1 else 0 }

  /** Opening minus closing braces in `s[j..m]`. */
  function Nesting(s: string, j: nat, m: nat): int
    requires j <= m <= |s|
    decreases m - j
  {
    if m == j then 0 else Nesting(s, j, m - 1) + Delta(s[m - 1])
  }

  /** Scans from `k` with `depth` braces open; returns the index just past the
      brace that closes them all. */
  function CloseFrom(s: string, k: nat, depth: nat): (r: Option<nat>)
    requires k <= |s| && depth >= 1
    ensures r.Some? ==> k < r.value <= |s| && s[r.value - 1] == '}'
    decreases |s| - k
  {
    if k == |s| then None
    else if s[k] == '{' then CloseFrom(s, k + 1, depth + 1)
    else if s[k] == '}' then (if depth == 1 then Some(k + 1) else CloseFrom(s, k + 1, depth - 1))
    else CloseFrom(s, k + 1, depth)
  }

  /** A balanced brace group starting at `j`: the index just past its `}`. */
  function BraceAt(s: string, j: nat): (r: Option<nat>)
    requires j <= |s|
    ensures r.Some? ==> j + 2 <= r.value <= |s| && s[j] == '{' && s[r.value - 1] == '}'
  {
    if j < |s| && s[j] == '{' then CloseFrom(s, j + 1, 1) else None
  }

  lemma {:induction false} CloseFromSpec(s: string, j: nat, k: nat, depth: nat)
    requires j < k <= |s| && depth >= 1
    requires Nesting(s, j, k) == depth
    requires forall m :: j < m <= k ==> Nesting(s, j, m) > 0
    ensures CloseFrom(s, k, depth).Some? ==>
      var e := CloseFrom(s, k, depth).value;
      Nesting(s, j, e) == 0 && forall m :: j < m < e ==> Nesting(s, j, m) > 0
    ensures CloseFrom(s, k, depth).None? ==> forall m :: j < m <= |s| ==> Nesting(s, j, m) > 0
    decreases |s| - k
  {
    if k < |s| {
      var d := depth + Delta(s[k]);
      assert Nesting(s, j, k + 1) == d;
      if d >= 1 {
        CloseFromSpec(s, j, k + 1, d);
      }
    }
  }

  /** `BraceAt` finds the brace that matches the opening one: the group is
      balanced and no shorter prefix of it is; it fails exactly when the
      opening brace is never closed. */
  lemma BraceAtMatches(s: string, j: nat)
    requires j < |s| && s[j] == '{'
    ensures BraceAt(s, j).Some? ==>
      var e := BraceAt(s, j).value;
      Nesting(s, j, e) == 0 && forall m :: j < m < e ==> Nesting(s, j, m) > 0
    ensures BraceAt(s, j).None? ==> forall m :: j < m <= |s| ==> Nesting(s, j, m) > 0
  {
    assert Nesting(s, j, j + 1) == 1;
    CloseFromSpec(s, j, j + 1, 1);
  }

  // ---------------------------------------------------------------------
  // Commands.

  /** The command name after a backslash at `i`: `[a-zA-Z]+\*?` for any name,
      the literal name otherwise. Returns the index just past the name. */
  function CommandNameAt(s: string, i: nat, spec: NameSpec): (r: Option<nat>)
    requires i <= |s|
    ensures r.Some? ==> i < r.value <= |s| && s[i] == '\\'
  {
    if i + 1 < |s| && s[i] == '\\' then
      match spec
      case AnyName =>
        if IsLetter(s[i + 1]) then
          var e := LettersEnd(s, i + 1);
          Some(if e < |s| && s[e] == '*' then e + 1 else e)
        else None
      case Named(name) =>
        if |name| > 0 && OccursAt(s, name, i + 1) then Some(i + 1 + |name|) else None
    else None
  }

  /** `\name[ \t]*(options)?[ \t]*{..}` at `i`: the shape of
      `get_pattern_command_full(name)` with no argument count. If the options
      group is present a brace group must follow it: without it the pattern
      would need `{` where `[` stands. */
  function CommandAt(s: string, i: nat, spec: NameSpec): (r: Option<nat>)
    requires i <= |s|
    ensures r.Some? ==> i < r.value <= |s| && s[i] == '\\' && s[r.value - 1] == '}'
  {
    match CommandNameAt(s, i, spec)
    case None => None
    case Some(j) =>
      var k := BlanksEnd(s, j);
      match OptionsAt(s, k)
      case Some(o) => BraceAt(s, BlanksEnd(s, o))
      case None => BraceAt(s, k)
  }

  /** `nargs` brace groups, each after optional blanks, starting at `j`. */
  function ArgsFrom(s: string, j: nat, nargs: nat): (r: Option<nat>)
    requires j <= |s|
    ensures r.Some? ==> j <= r.value <= |s|
    ensures r.Some? && nargs > 0 ==> j < r.value && s[r.value - 1] == '}'
    decreases nargs
  {
    if nargs == 0 then Some(j)
    else
      match BraceAt(s, BlanksEnd(s, j))
      case None => None
      case Some(e) => ArgsFrom(s, e, nargs - 1)
  }

  /** `get_pattern_command_full(name, n)`: `\name` and `n` brace groups; with
      `n == 0` a non-letter must follow the name. */
  function CommandArgsAt(s: string, i: nat, name: string, nargs: nat): (r: Option<nat>)
    requires i <= |s|
    ensures r.Some? ==> i < r.value <= |s| && s[i] == '\\'
    ensures r.Some? && nargs > 0 ==> s[r.value - 1] == '}'
  {
    match CommandNameAt(s, i, Named(name))
    case None => None
    case Some(j) =>
      if nargs == 0 then (if j < |s| && !IsLetter(s[j]) then Some(j) else None)
      else ArgsFrom(s, j, nargs)
  }

  /** `\\([a-zA-Z]+\*?)` at `i`. */
  function CommandSimpleAt(s: string, i: nat): (r: Option<nat>)
    requires i <= |s|
    ensures r.Some? ==> i + 2 <= r.value <= |s| && s[i] == '\\' && IsLetter(s[i + 1])
  {
    CommandNameAt(s, i, AnyName)
  }

  // ---------------------------------------------------------------------
  // The `\set...` patterns.

  /** `\set[a-zA-Z]*[ \t]*` at `i`: the index after the blanks. */
  function SetPrefixAt(s: string, i: nat): (r: Option<nat>)
    requires i <= |s|
    ensures r.Some? ==> i + 4 <= r.value <= |s| && s[i] == '\\'
  {
    if OccursAt(s, "\\set", i) then Some(BlanksEnd(s, LettersEnd(s, i + 4))) else None
  }

  /** `\{.*?\}` at `j`: the index after the first `}`. */
  function LazyBraceAt(s: string, j: nat): (r: Option<nat>)
    requires j <= |s|
    ensures r.Some? ==> j < r.value <= |s| && s[j] == '{' && s[r.value - 1] == '}'
  {
    if j < |s| && s[j] == '{' then
      var c := Find(s, "}", j + 1);
      if c == -1 then None else Some(c + 1)
    else None
  }

  /** `\set[a-zA-Z]*[ \t]*\\[a-zA-Z]+[ \t]*\{.*?\}` at `i`. */
  function SetCommandAt(s: string, i: nat): (r: Option<nat>)
    requires i <= |s|
    ensures r.Some? ==> i < r.value <= |s| && s[i] == '\\' && s[r.value - 1] == '}'
  {
    match SetPrefixAt(s, i)
    case None => None
    case Some(k) =>
      if k + 1 < |s| && s[k] == '\\' && IsLetter(s[k + 1]) then
        LazyBraceAt(s, BlanksEnd(s, LettersEnd(s, k + 1)))
      else None
  }

  /** `\set[a-zA-Z]*[ \t]*\{\\[a-zA-Z]+\}[ \t]*\{.*?\}` at `i`. */
  function SetBracedAt(s: string, i: nat): (r: Option<nat>)
    requires i <= |s|
    ensures r.Some? ==> i < r.value <= |s| && s[i] == '\\' && s[r.value - 1] == '}'
  {
    match SetPrefixAt(s, i)
    case None => None
    case Some(k) =>
      if k + 2 < |s| && s[k] == '{' && s[k + 1] == '\\' && IsLetter(s[k + 2]) then
        var l := LettersEnd(s, k + 2);
        if l < |s| && s[l] == '}' then LazyBraceAt(s, BlanksEnd(s, l + 1)) else None
      else None
  }

  // ---------------------------------------------------------------------
  // Environments: `\\begin[ \t]*\{(name)\}[ \t]*(options)?(.*?)\\end[ \t]*\{\1\}`.

  /** `\end[ \t]*{name}` at `p`: the index just past it. */
  function EndTagAt(s: string, p: nat, name: string): (r: Option<nat>)
    requires p <= |s|
    ensures r.Some? ==> p < r.value <= |s| && s[r.value - 1] == '}'
  {
    if OccursAt(s, "\\end", p) then
      var q := BlanksEnd(s, p + 4);
      if OccursAt(s, "{" + name + "}", q) then Some(q + |name| + 2) else None
    else None
  }

  /** The first end tag for `name` at or after `p`, as the lazy `(.*?)` finds it:
      the position where it starts and the index just past it. */
  function FindEndTag(s: string, p: nat, name: string): (r: Option<Span>)
    requires p <= |s|
    ensures r.Some? ==> p <= r.value.start < r.value.end <= |s| && EndTagAt(s, r.value.start, name) == Some(r.value.end)
    ensures r.Some? ==> forall q :: p <= q < r.value.start ==> EndTagAt(s, q, name).None?
    ensures r.None? ==> forall q :: p <= q <= |s| ==> EndTagAt(s, q, name).None?
    decreases |s| - p
  {
    match EndTagAt(s, p, name)
    case Some(e) => Some(Span(p, e))
    case None => if p == |s| then None else FindEndTag(s, p + 1, name)
  }

  /** The parts of an environment match. */
  datatype EnvParts = EnvParts(name: string, options: Option<Span>, content: Span, end: nat)

  /** The header `\begin[ \t]*{name}` at `i`: the captured name and the index
      just past its `}`. For any name the name runs to the first `}`. */
  function BeginTagAt(s: string, i: nat, spec: NameSpec): (r: Option<(string, nat)>)
    requires i <= |s|
    ensures r.Some? ==> i < r.value.1 <= |s| && s[i] == '\\'
  {
    if OccursAt(s, "\\begin", i) then
      var k := BlanksEnd(s, i + 6);
      if k < |s| && s[k] == '{' then
        match spec
        case AnyName =>
          var c := Find(s, "}", k + 1);
          if c == -1 then None else Some((s[k + 1..c], c + 1))
        case Named(name) =>
          if OccursAt(s, name + "}", k + 1) then Some((name, k + |name| + 2)) else None
      else None
    else None
  }

  /** An environment at `i`. The optional options group is tried first; when no
      end tag follows it, the match is retried without it, as backtracking does. */
  function EnvPartsAt(s: string, i: nat, spec: NameSpec): (r: Option<EnvParts>)
    requires i <= |s|
    ensures r.Some? ==> i < r.value.end <= |s| && s[i] == '\\'
    ensures r.Some? ==> r.value.content.start <= r.value.content.end <= r.value.end
    ensures r.Some? && r.value.options.Some? ==>
      r.value.options.value.start <= r.value.options.value.end == r.value.content.start
  {
    match BeginTagAt(s, i, spec)
    case None => None
    case Some((name, h)) =>
      var k := BlanksEnd(s, h);
      var withOptions :=
        match OptionsAt(s, k)
        case None => None
        case Some(o) =>
          (match FindEndTag(s, o, name)
           case None => None
           case Some(t) => Some(EnvParts(name, Some(Span(k, o)), Span(o, t.start), t.end)));
      if withOptions.Some? then withOptions
      else
        match FindEndTag(s, k, name)
        case None => None
        case Some(t) => Some(EnvParts(name, None, Span(k, t.start), t.end))
  }

  // ---------------------------------------------------------------------

  /** Where a match of `p` starting at `i` ends, if one does. */
  function MatchAt(p: Pattern, s: string, i: nat): (r: Option<nat>)
    requires WellFormed(p) && i <= |s|
    ensures r.Some? ==> i < r.value <= |s| && IsMarkup(s[i])
  {
    match p
    case Delimited(open, close) =>
      if OccursAt(s, open, i) then
        var c := Find(s, close, i + |open|);
        if c == -1 then None else Some(c + |close|)
      else None
    case Env(spec) =>
      (match EnvPartsAt(s, i, spec)
       case None => None
       case Some(parts) => Some(parts.end))
    case SetCommand => SetCommandAt(s, i)
    case SetBraced => SetBracedAt(s, i)
    case CommandArgs(name, nargs) => CommandArgsAt(s, i, name, nargs)
    case Command(spec) => CommandAt(s, i, spec)
    case Brace => BraceAt(s, i)
    case CommandSimple => CommandSimpleAt(s, i)
  }

  /** The first index at or after `from` where `ms` holds a value. */
  function FirstSome(ms: seq<Option<nat>>, from: nat): (r: Option<nat>)
    requires from <= |ms|
    ensures r.Some? ==> from <= r.value < |ms| && ms[r.value].Some?
    decreases |ms| - from
  {
    if from == |ms| then None
    else if ms[from].Some? then Some(from)
    else FirstSome(ms, from + 1)
  }

  lemma {:induction false} FirstSomeSpec(ms: seq<Option<nat>>, from: nat)
    requires from <= |ms|
    ensures FirstSome(ms, from).Some? ==> forall q :: from <= q < FirstSome(ms, from).value ==> ms[q].None?
    ensures FirstSome(ms, from).None? ==> forall q :: from <= q < |ms| ==> ms[q].None?
    decreases |ms| - from
  {
    if from < |ms| && ms[from].None? {
      FirstSomeSpec(ms, from + 1);
    }
  }

  /** The outcome of `MatchAt` at every position of `s`, the end included. */
  function Matches(p: Pattern, s: string): (ms: seq<Option<nat>>)
    requires WellFormed(p)
    ensures |ms| == |s| + 1
  {
    seq(|s| + 1, q requires 0 <= q <= |s| => MatchAt(p, s, q))
  }

  /** `pattern.search(text)` from `from` on. */
  function Search(p: Pattern, s: string, from: nat): (r: Option<Span>)
    requires WellFormed(p) && from <= |s|
    ensures r.Some? ==> from <= r.value.start < r.value.end <= |s| && IsMarkup(s[r.value.start])
  {
    var ms := Matches(p, s);
    match FirstSome(ms, from)
    case None => None
    case Some(q) => Some(Span(q, ms[q].value))
  }

  /** `Search` gives the leftmost start at which the pattern matches, with that
      match's end, and nothing when no position from `from` on matches. */
  lemma SearchSpec(p: Pattern, s: string, from: nat)
    requires WellFormed(p) && from <= |s|
    ensures var r := Search(p, s, from);
      && (r.Some? ==> MatchAt(p, s, r.value.start) == Some(r.value.end))
      && (r.Some? ==> forall q :: from <= q < r.value.start ==> MatchAt(p, s, q).None?)
      && (r.None? ==> forall q :: from <= q <= |s| ==> MatchAt(p, s, q).None?)
  {
    var ms := Matches(p, s);
    FirstSomeSpec(ms, from);
    forall q | from <= q <= |s| ensures ms[q] == MatchAt(p, s, q) { }
  }
}
