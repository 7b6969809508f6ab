/** The placeholder that stands for an extracted LaTeX object: the sentinel
    `mathCode` followed by the decimal digits of the object's index, each
    preceded by `_` (index 123 is written `<mathCode>_1_2_3`). */
module Placeholder {
  import opened Wrappers
  import opened Text

  function DigitChar(d: nat): (c: char)
    requires d < 10
    ensures IsDigit(c)
  {
    ['0', '1', '2', '3', '4', '5', '6', '7', '8', '9'][d]
  }

  function DigitValue(c: char): (d: nat)
    requires IsDigit(c)
    ensures d < 10
  {
    (c as int - '0' as int) as nat
  }

  lemma DigitRoundTrip(d: nat)
    requires d < 10
    ensures DigitValue(DigitChar(d)) == d
  {
  }

  predicate AllDigits(s: string) { forall k :: 0 <= k < |s| ==> IsDigit(s[k]) }

  /** Python's `str(n)` for a non-negative integer. */
  function DecimalString(n: nat): (s: string)
    ensures |s| >= 1 && AllDigits(s)
    ensures n > 0 ==> s[0] != '0'
  {
    if n < 10 then [DigitChar(n)] else DecimalString(n / 10) + [DigitChar(n % 10)]
  }

  /** Python's `int(s)` on a string of ASCII digits. */
  function ParseDecimal(s: string): nat
    requires AllDigits(s)
  {
    if |s| == 0 then 0 else ParseDecimal(s[..|s| - 1]) * 10 + DigitValue(s[|s| - 1])
  }

  lemma {:induction false} ParseDecimalString(n: nat)
    ensures ParseDecimal(DecimalString(n)) == n
  {
    var s := DecimalString(n);
    if n < 10 {
      DigitRoundTrip(n);
    } else {
      ParseDecimalString(n / 10);
      assert s[..|s| - 1] == DecimalString(n / 10);
      DigitRoundTrip(n % 10);
    }
  }

  /** `list(str(count))`: every character as a one-character string. */
  function Singletons(s: string): (r: seq<string>)
    ensures |r| == |s|
    ensures forall k :: 0 <= k < |r| ==> r[k] == [s[k]]
  {
    if |s| == 0 then [] else [[s[0]]] + Singletons(s[1..])
  }

  /** `variable_code(count)`: the placeholder for object number `count`. */
  function VariableCode(mathCode: string, count: nat): (r: string)
  {
    mathCode + "_" + Join(Singletons(DecimalString(count)), "_")
  }

  /** The text `get_obj` receives: what follows `<mathCode>_`. */
  predicate IsDigitGroup(s: string) { forall k :: 0 <= k < |s| ==> IsDigit(s[k]) || s[k] == '_' }

  /** `get_obj`'s parse: `int(''.join(digitStr.split('_')))`. */
  function DecodeIndex(digitStr: string): nat
    requires IsDigitGroup(digitStr)
  {
    var joined := Join(Split(digitStr, '_'), "");
    JoinedDigits(digitStr);
    ParseDecimal(joined)
  }

  lemma {:induction false} JoinEmptyKeeps(parts: seq<string>, c: char)
    requires forall k :: 0 <= k < |parts| ==> (forall j :: 0 <= j < |parts[k]| ==> parts[k][j] != c)
    ensures c !in Join(parts, "")
  {
    if |parts| > 1 {
      JoinEmptyKeeps(parts[1..], c);
      assert Join(parts, "") == parts[0] + Join(parts[1..], "");
    }
  }

  lemma {:induction false} JoinedDigitsParts(parts: seq<string>)
    requires forall k :: 0 <= k < |parts| ==> IsDigitGroup(parts[k])
    ensures IsDigitGroup(Join(parts, ""))
  {
    if |parts| > 1 {
      JoinedDigitsParts(parts[1..]);
      assert Join(parts, "") == parts[0] + Join(parts[1..], "");
    }
  }

  lemma JoinedDigits(digitStr: string)
    requires IsDigitGroup(digitStr)
    ensures AllDigits(Join(Split(digitStr, '_'), ""))
  {
    var parts := Split(digitStr, '_');
    SplitPartsDigitGroups(digitStr);
    JoinedDigitsParts(parts);
    JoinEmptyKeeps(parts, '_');
  }

  lemma {:induction false} SplitPartsDigitGroups(s: string)
    requires IsDigitGroup(s)
    ensures forall k :: 0 <= k < |Split(s, '_')| ==> IsDigitGroup(Split(s, '_')[k])
    decreases |s|
  {
    if |s| > 0 {
      SplitPartsDigitGroups(s[1..]);
    }
  }

  lemma {:induction false} JoinSingletons(s: string)
    ensures Join(Singletons(s), "") == s
  {
    if |s| > 1 {
      JoinSingletons(s[1..]);
      assert Singletons(s)[1..] == Singletons(s[1..]);
    }
  }

  /** Decoding the digits of `variable_code(n)` gives back `n`. */
  lemma DecodeVariableCode(mathCode: string, n: nat)
    ensures IsDigitGroup(VariableCode(mathCode, n)[|mathCode| + 1..])
    ensures DecodeIndex(VariableCode(mathCode, n)[|mathCode| + 1..]) == n
  {
    var ds := DecimalString(n);
    var parts := Singletons(ds);
    var body := Join(parts, "_");
    assert VariableCode(mathCode, n)[|mathCode| + 1..] == body;
    CodeBodyChars(ds);
    forall k | 0 <= k < |parts| ensures '_' !in parts[k] {
      assert parts[k] == [ds[k]];
    }
    SplitJoin(parts, '_');
    assert Split(body, '_') == parts;
    JoinSingletons(ds);
    ParseDecimalString(n);
  }

  lemma {:induction false} CodeBodyChars(ds: string)
    requires |ds| >= 1 && AllDigits(ds)
    ensures var body := Join(Singletons(ds), "_");
      IsDigitGroup(body) && |body| >= 1 && IsDigit(body[0]) && IsDigit(body[|body| - 1])
  {
    if |ds| > 1 {
      CodeBodyChars(ds[1..]);
      assert Singletons(ds)[1..] == Singletons(ds[1..]);
    }
  }

  /** The placeholder starts with `<mathCode>_` followed by a digit, and every
      character after the sentinel is a digit or `_`. */
  lemma VariableCodeShape(mathCode: string, n: nat)
    ensures var r := VariableCode(mathCode, n);
      StartsWith(r, mathCode + "_") && |r| >= |mathCode| + 2 &&
      IsDigit(r[|mathCode| + 1]) && IsDigit(r[|r| - 1]) &&
      IsDigitGroup(r[|mathCode| + 1..])
  {
    var ds := DecimalString(n);
    CodeBodyChars(ds);
    var r := VariableCode(mathCode, n);
    assert r[|mathCode| + 1..] == Join(Singletons(ds), "_");
  }

  /** Different indices get different placeholders. */
  lemma VariableCodeInjective(mathCode: string, m: nat, n: nat)
    requires m != n
    ensures VariableCode(mathCode, m) != VariableCode(mathCode, n)
  {
    DecodeVariableCode(mathCode, m);
    DecodeVariableCode(mathCode, n);
  }

  // ---------------------------------------------------------------------
  // Placeholder tokens inside a text.

  /** The rest of a greedy `\d+(?:_\d+)*` once a digit has been read, from
      `k` on: the index where it stops. */
  /** The digit group goes on at `k`: a digit, or `_` followed by a digit. */
  predicate GroupContinues(t: string, k: nat)
    requires k < |t|
  {
    IsDigit(t[k]) || (k + 1 < |t| && t[k] == '_' && IsDigit(t[k + 1]))
  }

  function GroupTail(t: string, k: nat): (r: nat)
    requires k <= |t|
    ensures k <= r <= |t|
    decreases |t| - k
  {
    if k < |t| && GroupContinues(t, k) then GroupTail(t, k + 1) else k
  }

  /** `\d+(?:_\d+)*` at `j`, taken greedily: the index where it stops. */
  function DigitGroupEnd(t: string, j: nat): (r: nat)
    requires j < |t| && IsDigit(t[j])
    ensures j < r <= |t|
  {
    GroupTail(t, j + 1)
  }

  lemma {:induction false} GroupTailChars(t: string, k: nat)
    requires 0 < k <= |t|
    requires IsDigit(t[k - 1]) || (t[k - 1] == '_' && k < |t| && IsDigit(t[k]))
    ensures IsDigit(t[GroupTail(t, k) - 1])
    ensures forall m :: k <= m < GroupTail(t, k) ==> IsDigit(t[m]) || t[m] == '_'
    decreases |t| - k
  {
    if k < |t| && GroupContinues(t, k) {
      GroupTailChars(t, k + 1);
    }
  }

  /** The digit group holds digits and `_` only, and ends with a digit. */
  lemma DigitGroupEndChars(t: string, j: nat)
    requires j < |t| && IsDigit(t[j])
    ensures IsDigit(t[DigitGroupEnd(t, j) - 1])
    ensures forall k :: j <= k < DigitGroupEnd(t, j) ==> IsDigit(t[k]) || t[k] == '_'
  {
    GroupTailChars(t, j + 1);
  }

  /** `w` occurs in `t` at `i`, checked from the `k`-th character of `w` on. */
  predicate MatchFrom(t: string, w: string, i: nat, k: nat)
    requires k <= |w|
    decreases |w| - k
  {
    k == |w| || (i + k < |t| && t[i + k] == w[k] && MatchFrom(t, w, i, k + 1))
  }

  lemma {:induction false} MatchFromChars(t: string, w: string, i: nat, k: nat)
    requires k <= |w|
    ensures MatchFrom(t, w, i, k) <==> (k == |w| || i + |w| <= |t|) && forall m :: k <= m < |w| ==> t[i + m] == w[m]
    decreases |w| - k
  {
    if k < |w| {
      MatchFromChars(t, w, i, k + 1);
    }
  }

  /** `<mathCode>_` occurs in `t` at `i`. */
  predicate SentinelAt(t: string, mathCode: string, i: nat)
  {
    MatchFrom(t, mathCode + "_", i, 0)
  }

  lemma SentinelAtChars(t: string, mathCode: string, i: nat)
    ensures SentinelAt(t, mathCode, i) <==>
      i + |mathCode| + 1 <= |t| && forall m :: 0 <= m < |mathCode| + 1 ==> t[i + m] == (mathCode + "_")[m]
  {
    MatchFromChars(t, mathCode + "_", i, 0);
  }

  lemma SentinelAtLength(t: string, mathCode: string, i: nat)
    requires SentinelAt(t, mathCode, i)
    ensures i + |mathCode| + 1 <= |t|
  {
    SentinelAtChars(t, mathCode, i);
  }

  /** `matchCode`, i.e. `<mathCode>_\d+(?:_\d+)*`, at `i`: the index just past it. */
  function CodeTokenAt(t: string, mathCode: string, i: nat): (r: Option<nat>)
    requires i <= |t|
    ensures r.Some? ==> i + |mathCode| + 2 <= r.value <= |t| && SentinelAt(t, mathCode, i)
  {
    var d := i + |mathCode| + 1;
    if SentinelAt(t, mathCode, i) && d < |t| && IsDigit(t[d]) then Some(DigitGroupEnd(t, d)) else None
  }

  /** A piece of `re.split(matchCode, text)`: a placeholder or the text between two. */
  datatype Segment = Plain(text: string) | Code(code: string)

  function Flatten(segs: seq<Segment>): string
  {
    if |segs| == 0 then "" else (if segs[0].Plain? then segs[0].text else segs[0].code) + Flatten(segs[1..])
  }

  /** `re.split(matchCode, text)` scanned from `i`, the current plain piece
      having started at `start`. */
  function SplitCodes(t: string, mathCode: string, start: nat, i: nat): (segs: seq<Segment>)
    requires start <= i <= |t|
    decreases |t| - i
  {
    if i == |t| then [Plain(t[start..])]
    else
      match CodeTokenAt(t, mathCode, i)
      case Some(e) => [Plain(t[start..i]), Code(t[i..e])] + SplitCodes(t, mathCode, e, e)
      case None => SplitCodes(t, mathCode, start, i + 1)
  }

  /** The pieces of the split put back together give the text. */
  lemma {:induction false} SplitCodesFlatten(t: string, mathCode: string, start: nat, i: nat)
    requires start <= i <= |t|
    ensures Flatten(SplitCodes(t, mathCode, start, i)) == t[start..]
    decreases |t| - i, 1
  {
    if i == |t| {
      assert Flatten([Plain(t[start..])]) == t[start..] + Flatten([]);
    } else if CodeTokenAt(t, mathCode, i).None? {
      SplitCodesFlatten(t, mathCode, start, i + 1);
    } else {
      SplitCodesFlattenAtCode(t, mathCode, start, i);
    }
  }

  lemma {:induction false} SplitCodesFlattenAtCode(t: string, mathCode: string, start: nat, i: nat)
    requires start <= i < |t| && CodeTokenAt(t, mathCode, i).Some?
    ensures Flatten(SplitCodes(t, mathCode, start, i)) == t[start..]
    decreases |t| - i, 0
  {
    var e := CodeTokenAt(t, mathCode, i).value;
    SplitCodesFlatten(t, mathCode, e, e);
    var rest := SplitCodes(t, mathCode, e, e);
    FlattenPair(t[start..i], t[i..e], rest);
    assert t[start..] == t[start..i] + t[i..e] + t[e..];
  }

  /** A plain piece and a placeholder in front of the rest. */
  lemma FlattenPair(p: string, c: string, rest: seq<Segment>)
    ensures Flatten([Plain(p), Code(c)] + rest) == p + (c + Flatten(rest))
  {
    var segs := [Plain(p), Code(c)] + rest;
    assert segs[1..] == [Code(c)] + rest;
    assert segs[2..] == rest;
  }

  /** Every placeholder piece of the split is a whole `matchCode` token. */
  lemma {:induction false} SplitCodesCodes(t: string, mathCode: string, start: nat, i: nat)
    requires start <= i <= |t|
    ensures forall k :: 0 <= k < |SplitCodes(t, mathCode, start, i)| && SplitCodes(t, mathCode, start, i)[k].Code? ==>
      StartsWith(SplitCodes(t, mathCode, start, i)[k].code, mathCode + "_")
    decreases |t| - i
  {
    if i < |t| {
      match CodeTokenAt(t, mathCode, i)
      case Some(e) =>
        SplitCodesCodes(t, mathCode, e, e);
        SentinelAtChars(t, mathCode, i);
        var code := t[i..e];
        assert StartsWith(code, mathCode + "_") by {
          forall m | 0 <= m < |mathCode| + 1 ensures code[m] == (mathCode + "_")[m] {
            assert code[m] == t[i + m];
          }
          assert code[..|mathCode + "_"|] == mathCode + "_";
        }
      case None =>
        SplitCodesCodes(t, mathCode, start, i + 1);
    }
  }

  function MapPlain(segs: seq<Segment>, f: string -> string): (r: seq<Segment>)
    ensures |r| == |segs|
    ensures forall k :: 0 <= k < |r| ==> r[k].Code? == segs[k].Code? && (segs[k].Code? ==> r[k] == segs[k])
  {
    if |segs| == 0 then []
    else [if segs[0].Plain? then Plain(f(segs[0].text)) else segs[0]] + MapPlain(segs[1..], f)
  }

  /** `modify_text(text, f)`: `f` applied to the text between placeholders only. */
  function ModifyText(t: string, mathCode: string, f: string -> string): string
  {
    Flatten(MapPlain(SplitCodes(t, mathCode, 0, 0), f))
  }

  lemma {:induction false} MapPlainIdentity(segs: seq<Segment>, f: string -> string)
    requires forall x :: f(x) == x
    ensures MapPlain(segs, f) == segs
  {
    if |segs| > 0 {
      MapPlainIdentity(segs[1..], f);
    }
  }

  /** A modifier that changes nothing leaves the whole text unchanged. */
  lemma ModifyTextIdentity(t: string, mathCode: string, f: string -> string)
    requires forall x :: f(x) == x
    ensures ModifyText(t, mathCode, f) == t
  {
    MapPlainIdentity(SplitCodes(t, mathCode, 0, 0), f);
    SplitCodesFlatten(t, mathCode, 0, 0);
    assert t[0..] == t;
  }
}
