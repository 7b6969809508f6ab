/** `recover_latex_objects`: the placeholders in a (translated) text are put
    back, pass after pass, until none is left. A pass is `re.subn` with the
    pattern `matchCodeReplace`, i.e. `<mathCode>_(\d+(?:_\d+)*)*`, whose
    replacement function `get_obj` records every index it decodes. */
module Recover {
  import opened Wrappers
  import opened Text
  import opened Placeholder
  import opened Matchers
  import opened Extract

  // ---------------------------------------------------------------------
  // `modify_after`: `(?<!\\)_` becomes `\_`.

  /** The escape applied to `s`, where `afterBackslash` says whether the
      character before `s` is a backslash. */
  function Escape(s: string, afterBackslash: bool): string
    decreases |s|
  {
    if |s| == 0 then ""
    else (if s[0] == '_' && !afterBackslash then "\\_" else [s[0]]) + Escape(s[1..], s[0] == '\\')
  }

  /** `modify_after(text)`. */
  function ModifyAfter(s: string): string
  {
    Escape(s, false)
  }

  /** Every `_` of `s` is preceded by a backslash (for the first character:
      `afterBackslash` holds). */
  predicate Escaped(s: string, afterBackslash: bool)
  {
    (|s| > 0 && s[0] == '_' ==> afterBackslash) &&
    forall k :: 0 < k < |s| && s[k] == '_' ==> s[k - 1] == '\\'
  }

  lemma {:induction false} EscapeEscapes(s: string, afterBackslash: bool)
    ensures Escaped(Escape(s, afterBackslash), afterBackslash)
    ensures |s| > 0 ==> (|Escape(s, afterBackslash)| > 0 &&
      (Escape(s, afterBackslash)[|Escape(s, afterBackslash)| - 1] == '\\' <==> s[|s| - 1] == '\\'))
    decreases |s|
  {
    if |s| > 0 {
      var head := if s[0] == '_' && !afterBackslash then "\\_" else [s[0]];
      var rest := Escape(s[1..], s[0] == '\\');
      EscapeEscapes(s[1..], s[0] == '\\');
      var r := head + rest;
      assert r == Escape(s, afterBackslash);
      forall k | 0 < k < |r| && r[k] == '_' ensures r[k - 1] == '\\' {
        if k >= |head| {
          if k > |head| {
            assert r[k] == rest[k - |head|] && r[k - 1] == rest[k - 1 - |head|];
          } else {
            assert r[k] == rest[0];
            assert r[k - 1] == head[|head| - 1];
          }
        }
      }
      if |s| > 1 {
        assert s[1..][|s| - 2] == s[|s| - 1];
        assert r[|r| - 1] == rest[|rest| - 1];
      }
    }
  }

  lemma {:induction false} EscapeKeepsEscaped(s: string, afterBackslash: bool)
    requires Escaped(s, afterBackslash)
    ensures Escape(s, afterBackslash) == s
    decreases |s|
  {
    if |s| > 0 {
      assert Escaped(s[1..], s[0] == '\\') by {
        forall k | 0 < k < |s[1..]| && s[1..][k] == '_' ensures s[1..][k - 1] == '\\' {
          assert s[k + 1] == '_';
        }
        if |s| > 1 && s[1] == '_' { assert s[1 - 1] == '\\'; }
      }
      EscapeKeepsEscaped(s[1..], s[0] == '\\');
      assert s == [s[0]] + s[1..];
    }
  }

  /** After `modify_after` every underscore is escaped, so applying it twice
      changes nothing more. */
  lemma ModifyAfterIdempotent(s: string)
    ensures Escaped(ModifyAfter(s), false)
    ensures ModifyAfter(ModifyAfter(s)) == ModifyAfter(s)
  {
    EscapeEscapes(s, false);
    EscapeKeepsEscaped(ModifyAfter(s), false);
  }

  // ---------------------------------------------------------------------
  // Tokens of `matchCodeReplace`.

  /** A match: the index just past it and the decoded group 1, `None` when
      no digit follows `<mathCode>_` (the group did not take part). */
  datatype Token = Token(end: nat, index: Option<nat>)

  /** `matchCodeReplace` at `i`. Group 1 is repeated by the outer `*`, but the
      greedy `\d+(?:_\d+)*` never leaves a digit for a second repetition, so
      the match is `<mathCode>_` followed by the longest digit group. */
  function TokenAt(t: string, mathCode: string, i: nat): (r: Option<Token>)
    requires i <= |t|
    ensures r.Some? <==> SentinelAt(t, mathCode, i)
    ensures r.Some? ==> i + |mathCode| + 1 <= r.value.end <= |t|
  {
    if !SentinelAt(t, mathCode, i) then None
    else
      var d := i + |mathCode| + 1;
      SentinelAtLength(t, mathCode, i);
      if d < |t| && IsDigit(t[d]) then
        var e := GroupTail(t, d + 1);
        Some(Token(e, Some(GroupIndex(t, d, e))))
      else Some(Token(d, None))
  }

  /** `int(''.join(group.split('_')))` for the group `t[d..e]`. */
  function GroupIndex(t: string, d: nat, e: nat): nat
    requires d < e <= |t| && IsDigit(t[d]) && e == GroupTail(t, d + 1)
  {
    var digits := t[d..e];
    assert IsDigitGroup(digits) by {
      GroupTailChars(t, d + 1);
      forall k | 0 <= k < |digits| ensures IsDigit(digits[k]) || digits[k] == '_' {
        assert digits[k] == t[d + k];
      }
    }
    DecodeIndex(digits)
  }

  /** The group-1 values of the matches `re.subn` finds from `i` on, left to
      right and without overlap. */
  function Tokens(t: string, mathCode: string, i: nat): seq<Option<nat>>
    requires i <= |t|
    decreases |t| - i
  {
    if i == |t| then []
    else match TokenAt(t, mathCode, i)
      case None => Tokens(t, mathCode, i + 1)
      case Some(tok) => [tok.index] + Tokens(t, mathCode, tok.end)
  }

  /** The first position at or after `i` where a match starts, or `|t|`. */
  function NextToken(t: string, mathCode: string, i: nat): (q: nat)
    requires i <= |t|
    ensures i <= q <= |t|
    decreases |t| - i
  {
    if i == |t| || TokenAt(t, mathCode, i).Some? then i else NextToken(t, mathCode, i + 1)
  }

  lemma {:induction false} NextTokenFound(t: string, mathCode: string, i: nat)
    requires i <= |t| && NextToken(t, mathCode, i) < |t|
    ensures TokenAt(t, mathCode, NextToken(t, mathCode, i)).Some?
    decreases |t| - i
  {
    if TokenAt(t, mathCode, i).None? {
      NextTokenFound(t, mathCode, i + 1);
    }
  }

  lemma {:induction false} NextTokenFirst(t: string, mathCode: string, i: nat, p: nat)
    requires i <= |t| && i <= p < NextToken(t, mathCode, i)
    ensures TokenAt(t, mathCode, p).None?
    decreases |t| - i
  {
    if p > i {
      NextTokenFirst(t, mathCode, i + 1, p);
    }
  }

  /** Skipping to the next match loses no match. */
  lemma {:induction false} TokensAtNext(t: string, mathCode: string, i: nat)
    requires i <= |t|
    ensures Tokens(t, mathCode, i) == Tokens(t, mathCode, NextToken(t, mathCode, i))
    decreases |t| - i
  {
    if i < |t| && TokenAt(t, mathCode, i).None? {
      TokensAtNext(t, mathCode, i + 1);
    }
  }

  // ---------------------------------------------------------------------
  // A match found in `b` is found at the same place, shifted, in `a + b`.

  function Shift(o: Option<Token>, n: nat): Option<Token>
  {
    match o
    case None => None
    case Some(tok) => Some(Token(tok.end + n, tok.index))
  }

  lemma {:induction false} GroupTailShift(a: string, b: string, k: nat)
    requires k <= |b|
    ensures GroupTail(a + b, |a| + k) == |a| + GroupTail(b, k)
    decreases |b| - k
  {
    if k < |b| {
      assert GroupContinues(a + b, |a| + k) == GroupContinues(b, k);
      if GroupContinues(b, k) {
        GroupTailShift(a, b, k + 1);
      }
    }
  }

  lemma {:induction false} MatchFromShift(a: string, b: string, w: string, j: nat, k: nat)
    requires k <= |w|
    ensures MatchFrom(a + b, w, |a| + j, k) <==> MatchFrom(b, w, j, k)
    decreases |w| - k
  {
    if k < |w| {
      MatchFromShift(a, b, w, j, k + 1);
    }
  }

  lemma TokenAtShift(a: string, b: string, mathCode: string, j: nat)
    requires j <= |b|
    ensures TokenAt(a + b, mathCode, |a| + j) == Shift(TokenAt(b, mathCode, j), |a|)
  {
    MatchFromShift(a, b, mathCode + "_", j, 0);
    if SentinelAt(b, mathCode, j) {
      SentinelAtLength(b, mathCode, j);
      var d := j + |mathCode| + 1;
      if d < |b| && IsDigit(b[d]) {
        TokenAtShiftDigits(a, b, mathCode, j);
      } else {
        assert d < |b| ==> (a + b)[|a| + d] == b[d];
      }
    }
  }

  /** The shifted match when digits follow `<mathCode>_`. */
  lemma TokenAtShiftDigits(a: string, b: string, mathCode: string, j: nat)
    requires j + |mathCode| + 1 < |b| && SentinelAt(b, mathCode, j) && SentinelAt(a + b, mathCode, |a| + j)
    requires IsDigit(b[j + |mathCode| + 1])
    ensures TokenAt(a + b, mathCode, |a| + j) == Shift(TokenAt(b, mathCode, j), |a|)
  {
    var d := j + |mathCode| + 1;
    GroupTailShift(a, b, d + 1);
    var e := GroupTail(b, d + 1);
    assert TokenAt(b, mathCode, j) == Some(Token(e, Some(GroupIndex(b, d, e))));
    assert (a + b)[|a| + d] == b[d];
    assert TokenAt(a + b, mathCode, |a| + j) == Some(Token(|a| + e, Some(GroupIndex(a + b, |a| + d, |a| + e))));
    assert (a + b)[|a| + d..|a| + e] == b[d..e];
  }

  lemma {:induction false} TokensShift(a: string, b: string, mathCode: string, j: nat)
    requires j <= |b|
    ensures Tokens(a + b, mathCode, |a| + j) == Tokens(b, mathCode, j)
    decreases |b| - j, 1
  {
    if j < |b| {
      if TokenAt(b, mathCode, j).None? {
        TokensShiftSkip(a, b, mathCode, j);
      } else {
        TokensShiftAtMatch(a, b, mathCode, j);
      }
    }
  }

  lemma {:induction false} TokensShiftSkip(a: string, b: string, mathCode: string, j: nat)
    requires j < |b| && TokenAt(b, mathCode, j).None?
    ensures Tokens(a + b, mathCode, |a| + j) == Tokens(b, mathCode, j)
    decreases |b| - j, 0
  {
    TokenAtShift(a, b, mathCode, j);
    TokensSkipStep(b, mathCode, j);
    TokensSkipStep(a + b, mathCode, |a| + j);
    TokensShift(a, b, mathCode, j + 1);
  }

  /** No match at `i`: the scan goes on at `i + 1`. */
  lemma TokensSkipStep(t: string, mathCode: string, i: nat)
    requires i < |t| && TokenAt(t, mathCode, i).None?
    ensures Tokens(t, mathCode, i) == Tokens(t, mathCode, i + 1)
  {
  }

  /** A match at `i`: its index, then the scan from its end. */
  lemma TokensMatchStep(t: string, mathCode: string, i: nat)
    requires i < |t| && TokenAt(t, mathCode, i).Some?
    ensures Tokens(t, mathCode, i) == [TokenAt(t, mathCode, i).value.index] + Tokens(t, mathCode, TokenAt(t, mathCode, i).value.end)
  {
  }

  lemma {:induction false} TokensShiftAtMatch(a: string, b: string, mathCode: string, j: nat)
    requires j < |b| && TokenAt(b, mathCode, j).Some?
    ensures Tokens(a + b, mathCode, |a| + j) == Tokens(b, mathCode, j)
    decreases |b| - j, 0
  {
    TokenAtShift(a, b, mathCode, j);
    var tok := TokenAt(b, mathCode, j).value;
    TokensMatchStep(b, mathCode, j);
    assert TokenAt(a + b, mathCode, |a| + j) == Some(Token(|a| + tok.end, tok.index));
    TokensMatchStep(a + b, mathCode, |a| + j);
    TokensShift(a, b, mathCode, tok.end);
  }

  // ---------------------------------------------------------------------
  // Matches never cross a space or a `?`.

  /** The characters that end every object (`' '`) and the unknown marker (`?`). */
  predicate Blocker(c: char) { c == ' ' || c == '?' }

  /** No match can start in `a` and reach into `b`, nor grow past the end of
      `a`: one side has a space or a `?` at the boundary. */
  predicate Separated(a: string, b: string)
  {
    |a| == 0 || |b| == 0 || Blocker(a[|a| - 1]) || Blocker(b[0])
  }

  /** No character of `<mathCode>_` stops a match. */
  lemma SentinelNoBlocker(mathCode: string)
    requires ValidMathCode(mathCode)
    ensures forall k :: 0 <= k < |mathCode + "_"| ==> !Blocker((mathCode + "_")[k])
  {
    forall k | 0 <= k < |mathCode + "_"| ensures !Blocker((mathCode + "_")[k]) {
      if k < |mathCode| { assert (mathCode + "_")[k] == mathCode[k]; }
    }
  }

  lemma {:induction false} GroupTailPrefix(a: string, b: string, k: nat)
    requires 0 < k <= |a| && Separated(a, b)
    requires IsDigit(a[k - 1]) || (a[k - 1] == '_' && k < |a| && IsDigit(a[k]))
    ensures GroupTail(a + b, k) == GroupTail(a, k)
    decreases |a| - k
  {
    if k < |a| {
      assert GroupContinues(a + b, k) == GroupContinues(a, k);
      if GroupContinues(a, k) {
        GroupTailPrefix(a, b, k + 1);
      }
    }
  }

  lemma SentinelAtPrefix(a: string, b: string, mathCode: string, j: nat)
    requires ValidMathCode(mathCode)
    requires j < |a| && Separated(a, b)
    ensures SentinelAt(a + b, mathCode, j) <==> SentinelAt(a, mathCode, j)
  {
    SentinelAtChars(a + b, mathCode, j);
    SentinelAtChars(a, mathCode, j);
    if j + |mathCode| + 1 > |a| {
      StraddleImpossible(a, b, mathCode, j);
    }
  }

  /** `<mathCode>_` cannot start in `a` and end in `b`. */
  lemma StraddleImpossible(a: string, b: string, mathCode: string, j: nat)
    requires ValidMathCode(mathCode)
    requires j < |a| < j + |mathCode| + 1 && Separated(a, b)
    ensures !SentinelAt(a + b, mathCode, j)
  {
    var w := mathCode + "_";
    SentinelAtChars(a + b, mathCode, j);
    SentinelNoBlocker(mathCode);
    if |b| > 0 {
      var x := |a| - 1 - j;
      assert (a + b)[j + x] == a[|a| - 1];
      assert (a + b)[j + x + 1] == b[0];
      assert !Blocker(w[x]) && !Blocker(w[x + 1]);
      assert Blocker((a + b)[j + x]) || Blocker((a + b)[j + x + 1]);
    }
  }

  /** A match that starts inside `a` is the same match in `a + b`. */
  lemma TokenAtPrefix(a: string, b: string, mathCode: string, j: nat)
    requires ValidMathCode(mathCode)
    requires j < |a| && Separated(a, b)
    ensures TokenAt(a + b, mathCode, j) == TokenAt(a, mathCode, j)
  {
    var w := mathCode + "_";
    SentinelAtPrefix(a, b, mathCode, j);
    if SentinelAt(a, mathCode, j) {
      SentinelAtChars(a, mathCode, j);
      var d := j + |w|;
      if d < |a| {
        if IsDigit(a[d]) {
          GroupTailPrefix(a, b, d + 1);
          var e := GroupTail(a, d + 1);
          assert (a + b)[d..e] == a[d..e];
        }
      } else {
        assert a[j + (|w| - 1)] == w[|w| - 1];
      }
    }
  }

  /** Scanning `a + b` finds the matches of `a`, then those of `b`, when the
      two are separated by a space or a `?`. */
  lemma {:induction false} TokensAppend(a: string, b: string, mathCode: string, i: nat)
    requires ValidMathCode(mathCode)
    requires i <= |a| && Separated(a, b)
    ensures Tokens(a + b, mathCode, i) == Tokens(a, mathCode, i) + Tokens(b, mathCode, 0)
    decreases |a| - i, 1
  {
    if i == |a| {
      TokensShift(a, b, mathCode, 0);
    } else if TokenAt(a, mathCode, i).None? {
      TokensAppendSkip(a, b, mathCode, i);
    } else {
      TokensAppendAtMatch(a, b, mathCode, i);
    }
  }

  lemma {:induction false} TokensAppendSkip(a: string, b: string, mathCode: string, i: nat)
    requires ValidMathCode(mathCode)
    requires i < |a| && Separated(a, b) && TokenAt(a, mathCode, i).None?
    ensures Tokens(a + b, mathCode, i) == Tokens(a, mathCode, i) + Tokens(b, mathCode, 0)
    decreases |a| - i, 0
  {
    TokenAtPrefix(a, b, mathCode, i);
    TokensSkipStep(a, mathCode, i);
    TokensSkipStep(a + b, mathCode, i);
    TokensAppend(a, b, mathCode, i + 1);
  }

  lemma {:induction false} TokensAppendAtMatch(a: string, b: string, mathCode: string, i: nat)
    requires ValidMathCode(mathCode)
    requires i < |a| && Separated(a, b) && TokenAt(a, mathCode, i).Some?
    ensures Tokens(a + b, mathCode, i) == Tokens(a, mathCode, i) + Tokens(b, mathCode, 0)
    decreases |a| - i, 0
  {
    TokenAtPrefix(a, b, mathCode, i);
    TokensMatchStep(a, mathCode, i);
    TokensMatchStep(a + b, mathCode, i);
    TokensAppend(a, b, mathCode, TokenAt(a, mathCode, i).value.end);
  }

  /** A text where `<mathCode>_` occurs nowhere from `i` on has no match. */
  lemma {:induction false} TokensNone(t: string, mathCode: string, i: nat)
    requires i <= |t|
    requires forall p :: i <= p < |t| ==> !SentinelAt(t, mathCode, p)
    ensures Tokens(t, mathCode, i) == []
    decreases |t| - i
  {
    if i < |t| {
      TokensNone(t, mathCode, i + 1);
    }
  }

  /** No match is found from `i` on exactly when `<mathCode>_` occurs
      nowhere from `i` on. */
  lemma {:induction false} TokensEmpty(t: string, mathCode: string, i: nat)
    requires i <= |t|
    ensures Tokens(t, mathCode, i) == [] <==> forall p :: i <= p < |t| ==> !SentinelAt(t, mathCode, p)
    decreases |t| - i
  {
    if i < |t| {
      TokensEmpty(t, mathCode, i + 1);
    }
  }

  /** The unknown-object marker holds no match. */
  lemma UnknownMarkerNoTokens(mathCode: string)
    ensures Tokens("???", mathCode, 0) == []
  {
    var w := mathCode + "_";
    forall p | 0 <= p < 3 ensures !SentinelAt("???", mathCode, p) {
      SentinelAtChars("???", mathCode, p);
      assert w[|w| - 1] == '_';
    }
    TokensNone("???", mathCode, 0);
  }

  /** The text between two matches holds no match of its own. */
  lemma GapNoTokens(t: string, mathCode: string, i: nat)
    requires i <= |t|
    ensures Tokens(t[i..NextToken(t, mathCode, i)], mathCode, 0) == []
  {
    var q := NextToken(t, mathCode, i);
    var g := t[i..q];
    forall p | 0 <= p < |g| ensures !SentinelAt(g, mathCode, p) {
      SentinelAtChars(g, mathCode, p);
      SentinelAtChars(t, mathCode, i + p);
      if SentinelAt(g, mathCode, p) {
        NextTokenFirst(t, mathCode, i, i + p);
        assert false;
      }
    }
    TokensNone(g, mathCode, 0);
  }
}
