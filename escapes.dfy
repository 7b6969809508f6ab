/** The escape tables of `process_latex`: escaped special characters (`\%`, `\{`, ...) and
    accented letters (`\"o`, `\"{o}`) are replaced by a math-code token before translation
    and put back afterwards. */
module Escapes {
  import opened Wrappers
  import opened Text

  /** `specialCharacterForward`: a two-letter code for each escapable character. */
  function Forward(c: char): Option<string>
  {
    match c
    case '\\' => Some("BS") case '%' => Some("PC") case '&' => Some("AD") case '#' => Some("NB")
    case '$' => Some("DL") case '{' => Some("LB") case '}' => Some("RB") case '^' => Some("UT")
    case ' ' => Some("SP") case '`' => Some("BQ") case '~' => Some("TD") case '\'' => Some("SQ")
    case '"' => Some("DQ") case '=' => Some("EQ") case '.' => Some("DT") case '*' => Some("ST")
    case '@' => Some("AT") case _ => None
  }

  /** `specialCharacterBackward`, the table read from code to character. */
  function Backward(code: string): Option<char>
  {
    if |code| != 2 then None
    else match (code[0], code[1])
      case ('B', 'S') => Some('\\') case ('P', 'C') => Some('%') case ('A', 'D') => Some('&')
      case ('N', 'B') => Some('#') case ('D', 'L') => Some('$') case ('L', 'B') => Some('{')
      case ('R', 'B') => Some('}') case ('U', 'T') => Some('^') case ('S', 'P') => Some(' ')
      case ('B', 'Q') => Some('`') case ('T', 'D') => Some('~') case ('S', 'Q') => Some('\'')
      case ('D', 'Q') => Some('"') case ('E', 'Q') => Some('=') case ('D', 'T') => Some('.')
      case ('S', 'T') => Some('*') case ('A', 'T') => Some('@') case _ => None
  }

  lemma BackwardForward(c: char)
    ensures Forward(c).Some? ==> Backward(Forward(c).value) == Some(c)
  {
  }

  lemma ForwardBackward(code: string)
    ensures Backward(code).Some? ==> Forward(Backward(code).value) == Some(code)
  {
    if |code| == 2 {
      assert code == [code[0], code[1]];
    }
  }

  /** The table is injective, so the backward table is well defined. */
  lemma ForwardInjective(a: char, b: char)
    ensures Forward(a).Some? && Forward(a) == Forward(b) ==> a == b
  {
    BackwardForward(a);
    BackwardForward(b);
  }

  /** Every code is two upper-case letters. */
  lemma ForwardCodes(c: char)
    ensures Forward(c).Some? ==> |Forward(c).value| == 2 && IsUpper(Forward(c).value[0]) && IsUpper(Forward(c).value[1])
  {
  }

  /** `listSpecial`: the characters that appear escaped as `\x`, in replacement order. */
  const ListSpecial: string := "\\%&#${} "

  lemma ListSpecialCoded(k: nat)
    requires k < |ListSpecial|
    ensures Forward(ListSpecial[k]).Some?
  {
  }

  /** The text that `replace_special` puts in place of `\c`. */
  function SpecialToken(mathCode: string, c: char): string
    requires Forward(c).Some?
  {
    " " + mathCode + Forward(c).value + " "
  }

  /** The text after the first `n` steps of `replace_special`. */
  function SpecialChain(text: string, mathCode: string, n: nat): string
    requires n <= |ListSpecial|
  {
    if n == 0 then text
    else
      ListSpecialCoded(n - 1);
      ReplaceAll(SpecialChain(text, mathCode, n - 1), ['\\', ListSpecial[n - 1]], SpecialToken(mathCode, ListSpecial[n - 1]))
  }

  /** No backslash in `s` is followed by a character of `cs`. */
  predicate EscapeFree(s: string, cs: string)
  {
    forall k :: 0 <= k < |s| - 1 && s[k] == '\\' ==> s[k + 1] !in cs
  }

  lemma {:induction false} ReplaceAllHead(t: string, pat: string, rep: string)
    requires |pat| > 0 && |rep| > 0 && |t| > 0
    ensures |ReplaceAll(t, pat, rep)| > 0
    ensures ReplaceAll(t, pat, rep)[0] == if |t| >= |pat| && t[..|pat|] == pat then rep[0] else t[0]
  {
  }

  /** One step of `replace_special` removes `\x` and brings back no escape removed earlier,
      provided the token holds no backslash. */
  lemma {:induction false} ReplaceEscapes(s: string, x: char, rep: string, cs: string)
    requires '\\' !in rep && |rep| > 0
    requires EscapeFree(s, cs) && (x == '\\' || '\\' in cs)
    ensures EscapeFree(ReplaceAll(s, ['\\', x], rep), cs + [x])
    decreases |s|
  {
    var pat := ['\\', x];
    var r := ReplaceAll(s, pat, rep);
    if |s| < 2 {
    } else if s[..2] == pat {
      ReplaceEscapes(s[2..], x, rep, cs);
      var r' := ReplaceAll(s[2..], pat, rep);
      assert r == rep + r';
      forall k | 0 <= k < |r| - 1 && r[k] == '\\' ensures r[k + 1] !in cs + [x] {
        assert k >= |rep|;
        assert r[k] == r'[k - |rep|];
      }
    } else {
      ReplaceEscapes(s[1..], x, rep, cs);
      var r' := ReplaceAll(s[1..], pat, rep);
      assert r == [s[0]] + r';
      ReplaceAllHead(s[1..], pat, rep);
      forall k | 0 <= k < |r| - 1 && r[k] == '\\' ensures r[k + 1] !in cs + [x] {
        if k == 0 {
          assert s[..2] == [s[0], s[1]];
          assert s[1] != '\\';
          assert |s[1..]| >= 2 ==> s[1..][..2][0] == s[1];
          assert r[1] == s[1];
        } else {
          assert r[k] == r'[k - 1];
        }
      }
    }
  }

  /** `replace_special`: each escaped special `\c` becomes ` <mathCode><code> `. When the math
      code holds no backslash, no escaped special survives. */
  method ReplaceSpecial(text: string, mathCode: string) returns (out: string)
    ensures out == SpecialChain(text, mathCode, |ListSpecial|)
    ensures '\\' !in mathCode ==> EscapeFree(out, ListSpecial)
  {
    out := text;
    for i := 0 to |ListSpecial|
      invariant out == SpecialChain(text, mathCode, i)
      invariant '\\' !in mathCode ==> EscapeFree(out, ListSpecial[..i])
    {
      var special := ListSpecial[i];
      ListSpecialCoded(i);
      var token := SpecialToken(mathCode, special);
      if '\\' !in mathCode {
        ForwardCodes(special);
        assert '\\' !in token;
        assert i > 0 ==> ListSpecial[..i][0] == '\\';
        ReplaceEscapes(out, special, token, ListSpecial[..i]);
        assert ListSpecial[..i + 1] == ListSpecial[..i] + [special];
      }
      out := ReplaceAll(out, ['\\', special], token);
    }
    assert ListSpecial[..|ListSpecial|] == ListSpecial;
  }

  lemma {:induction false} SpecialChainPlain(text: string, mathCode: string, n: nat)
    requires n <= |ListSpecial| && '\\' !in text
    ensures SpecialChain(text, mathCode, n) == text
  {
    if n > 0 {
      SpecialChainPlain(text, mathCode, n - 1);
      NotContainsFirst(text, ['\\', ListSpecial[n - 1]]);
      ReplaceAllAbsent(text, ['\\', ListSpecial[n - 1]], SpecialToken(mathCode, ListSpecial[n - 1]));
    }
  }

  /** A pattern whose first character does not occur is not contained. */
  lemma NotContainsFirst(s: string, p: string)
    requires |p| > 0 && p[0] !in s
    ensures !Contains(s, p)
  {
    forall i | 0 <= i && i + |p| <= |s| ensures !OccursAt(s, p, i) {
      assert s[i..i + |p|][0] == s[i];
    }
  }

  /** The text after the first `n` steps of `recover_special`. */
  function RecoverChain(text: string, mathCode: string, n: nat): string
    requires n <= |ListSpecial|
  {
    if n == 0 then text
    else
      ListSpecialCoded(n - 1);
      RecoverOne(RecoverChain(text, mathCode, n - 1), mathCode, ListSpecial[n - 1])
  }

  function RecoverOne(text: string, mathCode: string, c: char): string
    requires Forward(c).Some?
  {
    ReplaceAll(text, mathCode + Forward(c).value, ['\\', c])
  }

  /** `recover_special`: each `<mathCode><code>` becomes the escape `\c` again, in the order of
      `listSpecial`. */
  method RecoverSpecial(text: string, mathCode: string) returns (out: string)
    ensures out == RecoverChain(text, mathCode, |ListSpecial|)
  {
    out := text;
    for i := 0 to |ListSpecial|
      invariant out == RecoverChain(text, mathCode, i)
    {
      ListSpecialCoded(i);
      out := ReplaceAll(out, mathCode + Forward(ListSpecial[i]).value, ['\\', ListSpecial[i]]);
    }
  }

  /** Text without an upper-case letter holds no `<mathCode><code>`. */
  lemma NoUpperNoCode(s: string, mathCode: string, c: char)
    requires Forward(c).Some? && forall k :: 0 <= k < |s| ==> !IsUpper(s[k])
    ensures !Contains(s, mathCode + Forward(c).value)
  {
    ForwardCodes(c);
    var p := mathCode + Forward(c).value;
    forall i | 0 <= i && i + |p| <= |s| ensures !OccursAt(s, p, i) {
      assert s[i..i + |p|][|p| - 1] == s[i + |p| - 1];
    }
  }

  /** Within one token ` <mathCode><code> `, only the token's own code occurs. */
  lemma TokenOtherCode(mathCode: string, c: char, d: char)
    requires Forward(c).Some? && Forward(d).Some? && c != d
    requires |mathCode| > 0 && mathCode[0] != ' '
    ensures !Contains(SpecialToken(mathCode, c), mathCode + Forward(d).value)
  {
    var s := SpecialToken(mathCode, c);
    var p := mathCode + Forward(d).value;
    ForwardCodes(c);
    ForwardCodes(d);
    ForwardInjective(c, d);
    forall i | 0 <= i && i + |p| <= |s| ensures !OccursAt(s, p, i) {
      if i == 0 {
        assert s[i..i + |p|][0] != p[0];
      } else if i == 1 {
        assert s[1..1 + |p|] == mathCode + Forward(c).value;
        assert s[1..1 + |p|][|mathCode|..] == Forward(c).value;
        assert p[|mathCode|..] == Forward(d).value;
      } else {
        assert s[i..i + |p|][|p| - 1] == ' ';
      }
    }
  }

  lemma TokenOwnCode(mathCode: string, c: char)
    requires Forward(c).Some?
    requires |mathCode| > 0 && mathCode[0] != ' '
    ensures RecoverOne(SpecialToken(mathCode, c), mathCode, c) == " \\" + [c] + " "
  {
    var s := SpecialToken(mathCode, c);
    var p := mathCode + Forward(c).value;
    ForwardCodes(c);
    assert s[..|p|][0] == ' ' && p[0] == mathCode[0];
    assert s[1..] == p + " ";
    assert (p + " ")[..|p|] == p;
    assert (p + " ")[|p|..] == " ";
    var rep := ['\\', c];
    assert ReplaceAll(" ", p, rep) == " ";
    assert ReplaceAll(p + " ", p, rep) == rep + ReplaceAll(" ", p, rep);
    assert ReplaceAll(s, p, rep) == [s[0]] + ReplaceAll(s[1..], p, rep);
  }

  lemma {:induction false} RecoverChainTokenBefore(mathCode: string, c: char, n: nat)
    requires Forward(c).Some? && n <= |ListSpecial| && forall k :: 0 <= k < n ==> ListSpecial[k] != c
    requires |mathCode| > 0 && mathCode[0] != ' '
    ensures RecoverChain(SpecialToken(mathCode, c), mathCode, n) == SpecialToken(mathCode, c)
  {
    if n > 0 {
      RecoverChainTokenBefore(mathCode, c, n - 1);
      ListSpecialCoded(n - 1);
      TokenOtherCode(mathCode, c, ListSpecial[n - 1]);
      ReplaceAllAbsent(SpecialToken(mathCode, c), mathCode + Forward(ListSpecial[n - 1]).value, ['\\', ListSpecial[n - 1]]);
    }
  }

  lemma {:induction false} RecoverChainTokenAfter(mathCode: string, c: char, j: nat, n: nat)
    requires j < n <= |ListSpecial| && ListSpecial[j] == c
    requires |mathCode| > 0 && mathCode[0] != ' '
    requires forall k :: 0 <= k < j ==> ListSpecial[k] != c
    ensures Forward(c).Some? && RecoverChain(SpecialToken(mathCode, c), mathCode, n) == " \\" + [c] + " "
  {
    ListSpecialCoded(j);
    if n == j + 1 {
      RecoverChainTokenBefore(mathCode, c, j);
      TokenOwnCode(mathCode, c);
    } else {
      RecoverChainTokenAfter(mathCode, c, j, n - 1);
      ListSpecialCoded(n - 1);
      var s := " \\" + [c] + " ";
      assert forall k :: 0 <= k < |s| ==> !IsUpper(s[k]);
      NoUpperNoCode(s, mathCode, ListSpecial[n - 1]);
      ReplaceAllAbsent(s, mathCode + Forward(ListSpecial[n - 1]).value, ['\\', ListSpecial[n - 1]]);
    }
  }

  lemma ListSpecialDistinct(k: nat, j: nat)
    requires k < j < |ListSpecial|
    ensures ListSpecial[k] != ListSpecial[j]
  {
    assert ListSpecial == ['\\', '%', '&', '#', '$', '{', '}', ' '];
  }

  /** `recover_special` turns the token `replace_special` wrote for `\c` back into `\c`
      (with the two spaces around it). */
  lemma RecoverSpecialToken(mathCode: string, j: nat)
    requires j < |ListSpecial|
    requires |mathCode| > 0 && mathCode[0] != ' '
    ensures Forward(ListSpecial[j]).Some?
    ensures RecoverChain(SpecialToken(mathCode, ListSpecial[j]), mathCode, |ListSpecial|) == " \\" + [ListSpecial[j]] + " "
  {
    forall k | 0 <= k < j ensures ListSpecial[k] != ListSpecial[j] {
      ListSpecialDistinct(k, j);
    }
    RecoverChainTokenAfter(mathCode, ListSpecial[j], j, |ListSpecial|);
  }

  lemma {:induction false} RecoverChainPlain(text: string, mathCode: string, n: nat)
    requires n <= |ListSpecial| && |mathCode| > 0 && !Contains(text, mathCode)
    ensures RecoverChain(text, mathCode, n) == text
  {
    if n > 0 {
      RecoverChainPlain(text, mathCode, n - 1);
      ListSpecialCoded(n - 1);
      var p := mathCode + Forward(ListSpecial[n - 1]).value;
      forall i | 0 <= i && i + |p| <= |text| ensures !OccursAt(text, p, i) {
        if OccursAt(text, p, i) {
          assert text[i..i + |mathCode|] == p[..|mathCode|];
          assert OccursAt(text, mathCode, i);
        }
      }
      ReplaceAllAbsent(text, p, ['\\', ListSpecial[n - 1]]);
    }
  }

  // ---------------------------------------------------------------- accents

  /** The accent characters of `patternAccent`. */
  const Accents: string := "`'\"^~=."

  datatype AccentMatch = AccentMatch(end: nat, accent: char, letter: char)

  /** `patternAccent` at `i`: `\a{c}` or `\ac` with an accent `a` and a letter `c`. */
  function AccentAt(s: string, i: nat): (m: Option<AccentMatch>)
    ensures m.Some? ==> i + 3 <= m.value.end <= |s| && m.value.accent in Accents && IsLetter(m.value.letter)
    ensures m.Some? ==> s[i] == '\\' && s[i + 1] == m.value.accent
  {
    if i + 3 <= |s| && s[i] == '\\' && s[i + 1] in Accents then
      if s[i + 2] == '{' then
        if i + 5 <= |s| && IsLetter(s[i + 3]) && s[i + 4] == '}' then Some(AccentMatch(i + 5, s[i + 1], s[i + 3])) else None
      else if IsLetter(s[i + 2]) then Some(AccentMatch(i + 3, s[i + 1], s[i + 2]))
      else None
    else None
  }

  lemma AccentsCoded(a: char)
    requires a in Accents
    ensures Forward(a).Some?
  {
  }

  /** `replace_accent` from `i` on: every accented letter becomes `<mathCode><code><letter>`. */
  function ReplaceAccent(s: string, mathCode: string, i: nat): string
    requires i <= |s|
    decreases |s| - i
  {
    if i == |s| then ""
    else
      match AccentAt(s, i)
      case Some(m) =>
        AccentsCoded(m.accent);
        mathCode + Forward(m.accent).value + [m.letter] + ReplaceAccent(s, mathCode, m.end)
      case None => [s[i]] + ReplaceAccent(s, mathCode, i + 1)
  }

  /** `matchCodeAccent` at `i`: the math code, two upper-case letters, a letter. */
  predicate CodeAccentAt(s: string, mathCode: string, i: nat)
  {
    OccursAt(s, mathCode, i) && i + |mathCode| + 3 <= |s|
    && IsUpper(s[i + |mathCode|]) && IsUpper(s[i + |mathCode| + 1]) && IsLetter(s[i + |mathCode| + 2])
  }

  /** The `KeyError` of `recover_accent`: a code the backward table does not know. */
  datatype AccentError = UnknownCode(code: string)

  /** `recover_accent` from `i` on: each `<mathCode><code><letter>` becomes `\a{letter}`. */
  function RecoverAccent(s: string, mathCode: string, i: nat): (r: Result<string, AccentError>)
    requires i <= |s|
    ensures r.Err? ==> |r.error.code| == 2 && Backward(r.error.code).None?
    decreases |s| - i
  {
    if i == |s| then Ok("")
    else if CodeAccentAt(s, mathCode, i) then
      var j := i + |mathCode|;
      var code := s[j..j + 2];
      match Backward(code)
      case None => Err(UnknownCode(code))
      case Some(a) =>
        match RecoverAccent(s, mathCode, j + 3)
        case Ok(rest) => Ok(['\\', a, '{', s[j + 2], '}'] + rest)
        case Err(e) => Err(e)
    else
      match RecoverAccent(s, mathCode, i + 1)
      case Ok(rest) => Ok([s[i]] + rest)
      case Err(e) => Err(e)
  }

  /** Text without a backslash has no accent to replace. */
  lemma {:induction false} ReplaceAccentPlain(s: string, mathCode: string, i: nat)
    requires i <= |s| && '\\' !in s
    ensures ReplaceAccent(s, mathCode, i) == s[i..]
    decreases |s| - i
  {
    if i < |s| {
      ReplaceAccentPlain(s, mathCode, i + 1);
      assert s[i..] == [s[i]] + s[i + 1..];
    }
  }

  /** Text without the math code has no code to recover. */
  lemma {:induction false} RecoverAccentPlain(s: string, mathCode: string, i: nat)
    requires i <= |s| && !Contains(s, mathCode)
    ensures RecoverAccent(s, mathCode, i) == Ok(s[i..])
    decreases |s| - i
  {
    if i < |s| {
      assert !OccursAt(s, mathCode, i);
      assert !CodeAccentAt(s, mathCode, i);
      RecoverAccentPlain(s, mathCode, i + 1);
      assert RecoverAccent(s, mathCode, i) == Ok([s[i]] + s[i + 1..]);
      assert s[i..] == [s[i]] + s[i + 1..];
    } else {
      assert s[i..] == "";
    }
  }

  /** Both spellings `\ac` and `\a{c}` are replaced by the same token. */
  lemma ReplaceAccentToken(mathCode: string, a: char, c: char)
    requires a in Accents && IsLetter(c)
    ensures Forward(a).Some?
    ensures ReplaceAccent(['\\', a, c], mathCode, 0) == mathCode + Forward(a).value + [c]
    ensures ReplaceAccent(['\\', a, '{', c, '}'], mathCode, 0) == mathCode + Forward(a).value + [c]
  {
    AccentsCoded(a);
  }

  /** The token is recovered in the braced spelling, so `recover_accent(replace_accent(x))`
      normalises `\"o` and `\"{o}` alike to `\"{o}`. */
  lemma RecoverAccentToken(mathCode: string, a: char, c: char)
    requires a in Accents && IsLetter(c)
    ensures Forward(a).Some?
    ensures RecoverAccent(ReplaceAccent(['\\', a, c], mathCode, 0), mathCode, 0) == Ok(['\\', a, '{', c, '}'])
    ensures RecoverAccent(ReplaceAccent(['\\', a, '{', c, '}'], mathCode, 0), mathCode, 0) == Ok(['\\', a, '{', c, '}'])
  {
    ReplaceAccentToken(mathCode, a, c);
    ForwardCodes(a);
    BackwardForward(a);
    var t := mathCode + Forward(a).value + [c];
    assert t[..|mathCode|] == mathCode;
    assert CodeAccentAt(t, mathCode, 0);
    assert t[|mathCode|..|mathCode| + 2] == Forward(a).value;
    assert t[|mathCode| + 2] == c;
    assert RecoverAccent(t, mathCode, |t|) == Ok("");
    assert RecoverAccent(t, mathCode, 0) == Ok(['\\', a, '{', c, '}'] + "");
    assert ['\\', a, '{', c, '}'] + "" == ['\\', a, '{', c, '}'];
  }
}
