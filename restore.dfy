/** The substitution passes of `recover_latex_objects` and the mismatch count
    it reports. */
module Restore {
  import opened Wrappers
  import opened Text
  import opened Placeholder
  import opened Extract
  import opened Recover
  import opened Mismatch

  /** Why `recover_latex_objects` raises: `get_obj(None)` fails on
      `None.split` when no digit follows `<mathCode>_`, and in the test
      environment an unknown index fails `assert tolerateError`. */
  datatype Failure = MissingDigits | UnknownIndex(index: nat)

  /** The marker that stands for an unknown object. */
  const Unknown: string := "???"

  /** `get_obj` rejects this group value. */
  predicate Rejected(v: Option<nat>, nobjs: nat, testEnv: bool, tolerate: bool)
  {
    v.None? || (v.value >= nobjs && testEnv && !tolerate)
  }

  /** `get_obj(match.group(1))`. */
  function GetObj(v: Option<nat>, objs: seq<string>, testEnv: bool, tolerate: bool): (r: Result<string, Failure>)
    ensures r.Err? <==> Rejected(v, |objs|, testEnv, tolerate)
    ensures r.Ok? ==> r.value == (if v.value < |objs| then objs[v.value] else Unknown)
  {
    match v
    case None => Err(MissingDigits)
    case Some(index) =>
      if index < |objs| then Ok(objs[index])
      else if testEnv && !tolerate then Err(UnknownIndex(index))
      else Ok(Unknown)
  }

  /** The outcome of one `pattern.subn(...)`: the new text and the indices
      `get_obj` appended, one per substitution. */
  datatype Pass = Pass(text: string, indices: seq<nat>)

  /** `pattern.subn(lambda match: get_obj(match.group(1)), text)` on the
      text from `i` on: the text up to the next match is kept, the match is
      replaced, and the scan resumes after it. The replacement function runs
      left to right, so the leftmost rejected match decides the failure. */
  function SubPass(t: string, mathCode: string, objs: seq<string>, testEnv: bool, tolerate: bool, i: nat): Result<Pass, Failure>
    requires i <= |t|
    decreases |t| - i
  {
    var q := NextToken(t, mathCode, i);
    if q == |t| then Ok(Pass(t[i..], []))
    else
      NextTokenFound(t, mathCode, i);
      var tok := TokenAt(t, mathCode, q).value;
      match GetObj(tok.index, objs, testEnv, tolerate)
      case Err(e) => Err(e)
      case Ok(rep) =>
        match SubPass(t, mathCode, objs, testEnv, tolerate, tok.end)
        case Err(e) => Err(e)
        case Ok(rest) => Ok(Pass(t[i..q] + rep + rest.text, [tok.index.value] + rest.indices))
  }

  function Somes(xs: seq<nat>): (r: seq<Option<nat>>)
    ensures |r| == |xs| && forall k :: 0 <= k < |xs| ==> r[k] == Some(xs[k])
  {
    if |xs| == 0 then [] else [Some(xs[0])] + Somes(xs[1..])
  }

  /** Unfolding `Tokens` at the next match. */
  lemma TokensAtMatch(t: string, mathCode: string, i: nat)
    requires i <= |t| && NextToken(t, mathCode, i) < |t|
    ensures TokenAt(t, mathCode, NextToken(t, mathCode, i)).Some?
    ensures var tok := TokenAt(t, mathCode, NextToken(t, mathCode, i)).value;
      Tokens(t, mathCode, i) == [tok.index] + Tokens(t, mathCode, tok.end)
  {
    NextTokenFound(t, mathCode, i);
    TokensAtNext(t, mathCode, i);
  }

  /** A pass fails exactly when one of the matches it meets is rejected. */
  lemma {:induction false} SubPassFails(t: string, mathCode: string, objs: seq<string>, testEnv: bool, tolerate: bool, i: nat)
    requires i <= |t|
    ensures SubPass(t, mathCode, objs, testEnv, tolerate, i).Err? <==>
      exists k :: 0 <= k < |Tokens(t, mathCode, i)| && Rejected(Tokens(t, mathCode, i)[k], |objs|, testEnv, tolerate)
    decreases |t| - i
  {
    var ts := Tokens(t, mathCode, i);
    var q := NextToken(t, mathCode, i);
    if q == |t| {
      TokensAtNext(t, mathCode, i);
    } else {
      TokensAtMatch(t, mathCode, i);
      var tok := TokenAt(t, mathCode, q).value;
      SubPassFails(t, mathCode, objs, testEnv, tolerate, tok.end);
      var rest := Tokens(t, mathCode, tok.end);
      assert ts == [tok.index] + rest;
      assert ts[0] == tok.index;
      assert SubPass(t, mathCode, objs, testEnv, tolerate, i).Err? <==>
        GetObj(tok.index, objs, testEnv, tolerate).Err? || SubPass(t, mathCode, objs, testEnv, tolerate, tok.end).Err?;
      if exists k :: 0 <= k < |rest| && Rejected(rest[k], |objs|, testEnv, tolerate) {
        var k :| 0 <= k < |rest| && Rejected(rest[k], |objs|, testEnv, tolerate);
        assert ts[k + 1] == rest[k];
      }
      if exists k :: 0 <= k < |ts| && Rejected(ts[k], |objs|, testEnv, tolerate) {
        var k :| 0 <= k < |ts| && Rejected(ts[k], |objs|, testEnv, tolerate);
        if k > 0 { assert rest[k - 1] == ts[k]; }
      }
    }
  }

  /** A pass that succeeds records the index of every match, in order. */
  lemma {:induction false} SubPassIndices(t: string, mathCode: string, objs: seq<string>, testEnv: bool, tolerate: bool, i: nat)
    requires i <= |t|
    requires SubPass(t, mathCode, objs, testEnv, tolerate, i).Ok?
    ensures Somes(SubPass(t, mathCode, objs, testEnv, tolerate, i).value.indices) == Tokens(t, mathCode, i)
    decreases |t| - i
  {
    var q := NextToken(t, mathCode, i);
    if q == |t| {
      TokensAtNext(t, mathCode, i);
    } else {
      TokensAtMatch(t, mathCode, i);
      var tok := TokenAt(t, mathCode, q).value;
      SubPassIndices(t, mathCode, objs, testEnv, tolerate, tok.end);
    }
  }

  /** A pass without a match changes nothing. */
  lemma SubPassNoMatch(t: string, mathCode: string, objs: seq<string>, testEnv: bool, tolerate: bool)
    requires Tokens(t, mathCode, 0) == []
    ensures SubPass(t, mathCode, objs, testEnv, tolerate, 0) == Ok(Pass(t, []))
  {
    if NextToken(t, mathCode, 0) < |t| {
      TokensAtMatch(t, mathCode, 0);
    }
    assert t[0..] == t;
  }

  // ---------------------------------------------------------------------
  // Why the passes stop: the weight of a text.

  /** What extraction leaves in the objects: each is padded by spaces and
      holds only placeholders of objects extracted before it. */
  predicate NestedObjects(objs: seq<string>, mathCode: string)
  {
    forall k :: 0 <= k < |objs| ==> NestedObject(objs, mathCode, k)
  }

  /** Object `k` is padded and names only objects before it. */
  predicate NestedObject(objs: seq<string>, mathCode: string, k: nat)
    requires k < |objs|
  {
    |objs[k]| > 0 && objs[k][0] == ' ' && objs[k][|objs[k]| - 1] == ' ' &&
    forall v :: v in Tokens(objs[k], mathCode, 0) ==> v.Some? && v.value < k
  }

  /** The number of substitutions recovering object `k` takes, itself included. */
  function ObjWeight(objs: seq<string>, mathCode: string, k: nat): (w: nat)
    requires k < |objs|
    ensures w >= 1
    decreases k, 1, 0
  {
    1 + WeightSum(objs, mathCode, Tokens(objs[k], mathCode, 0), k)
  }

  /** The weights of the placeholders `vs` found in object `bound`; a
      placeholder that does not name an earlier object counts one. */
  function WeightSum(objs: seq<string>, mathCode: string, vs: seq<Option<nat>>, bound: nat): nat
    requires bound <= |objs|
    decreases bound, 0, |vs|
  {
    if |vs| == 0 then 0
    else
      (if vs[0].Some? && vs[0].value < bound then ObjWeight(objs, mathCode, vs[0].value) else 1)
      + WeightSum(objs, mathCode, vs[1..], bound)
  }

  /** The number of substitutions one placeholder of the text will take. */
  function Cost(objs: seq<string>, mathCode: string, v: Option<nat>): (c: nat)
    ensures c >= 1
  {
    if v.Some? && v.value < |objs| then ObjWeight(objs, mathCode, v.value) else 1
  }

  function CostSum(objs: seq<string>, mathCode: string, vs: seq<Option<nat>>): nat
  {
    if |vs| == 0 then 0 else Cost(objs, mathCode, vs[0]) + CostSum(objs, mathCode, vs[1..])
  }

  /** The substitutions the text still needs. */
  function TextWeight(objs: seq<string>, mathCode: string, t: string): nat
  {
    CostSum(objs, mathCode, Tokens(t, mathCode, 0))
  }

  lemma {:induction false} CostSumAppend(objs: seq<string>, mathCode: string, a: seq<Option<nat>>, b: seq<Option<nat>>)
    ensures CostSum(objs, mathCode, a + b) == CostSum(objs, mathCode, a) + CostSum(objs, mathCode, b)
  {
    if |a| > 0 {
      assert (a + b)[1..] == a[1..] + b;
      CostSumAppend(objs, mathCode, a[1..], b);
    } else {
      assert a + b == b;
    }
  }

  /** Inside an object every placeholder names an earlier object, so the
      two ways of weighing it agree. */
  lemma {:induction false} WeightSumCostSum(objs: seq<string>, mathCode: string, vs: seq<Option<nat>>, bound: nat)
    requires bound <= |objs|
    requires forall v :: v in vs ==> v.Some? && v.value < bound
    ensures WeightSum(objs, mathCode, vs, bound) == CostSum(objs, mathCode, vs)
  {
    if |vs| > 0 {
      assert vs[0] in vs;
      assert forall v :: v in vs[1..] ==> v in vs;
      WeightSumCostSum(objs, mathCode, vs[1..], bound);
    }
  }

  /** Replacing a known placeholder by its object trades its cost for the
      cost of the placeholders inside the object, which is one less. */
  lemma ObjectCost(objs: seq<string>, mathCode: string, k: nat)
    requires NestedObjects(objs, mathCode) && k < |objs|
    ensures CostSum(objs, mathCode, Tokens(objs[k], mathCode, 0)) + 1 == Cost(objs, mathCode, Some(k))
  {
    assert NestedObject(objs, mathCode, k);
    WeightSumCostSum(objs, mathCode, Tokens(objs[k], mathCode, 0), k);
  }

  /** The replacement a pass puts in place of a placeholder ends and starts
      with a space or a `?`, and costs one less than the placeholder. */
  lemma ReplacementCost(objs: seq<string>, mathCode: string, v: Option<nat>, rep: string, testEnv: bool, tolerate: bool)
    requires NestedObjects(objs, mathCode)
    requires GetObj(v, objs, testEnv, tolerate) == Ok(rep)
    ensures |rep| > 0 && Blocker(rep[0]) && Blocker(rep[|rep| - 1])
    ensures CostSum(objs, mathCode, Tokens(rep, mathCode, 0)) + 1 == Cost(objs, mathCode, v)
  {
    if v.value < |objs| {
      assert NestedObject(objs, mathCode, v.value);
      ObjectCost(objs, mathCode, v.value);
    } else {
      UnknownMarkerNoTokens(mathCode);
    }
  }

  /** The weight of a text rebuilt by a pass splits at the replacement. */
  lemma ReplacedCost(objs: seq<string>, mathCode: string, gap: string, rep: string, r: string)
    requires ValidMathCode(mathCode)
    requires Tokens(gap, mathCode, 0) == []
    requires |rep| > 0 && Blocker(rep[0]) && Blocker(rep[|rep| - 1])
    ensures CostSum(objs, mathCode, Tokens(gap + rep + r, mathCode, 0)) ==
      CostSum(objs, mathCode, Tokens(rep, mathCode, 0)) + CostSum(objs, mathCode, Tokens(r, mathCode, 0))
  {
    assert gap + rep + r == gap + (rep + r);
    TokensAppend(gap, rep + r, mathCode, 0);
    assert Tokens(gap + (rep + r), mathCode, 0) == Tokens(rep + r, mathCode, 0);
    TokensAppend(rep, r, mathCode, 0);
    CostSumAppend(objs, mathCode, Tokens(rep, mathCode, 0), Tokens(r, mathCode, 0));
  }

  /** Each substitution of a pass removes exactly one unit of weight. */
  lemma {:induction false} PassWeight(t: string, mathCode: string, objs: seq<string>, testEnv: bool, tolerate: bool, i: nat)
    requires ValidMathCode(mathCode) && NestedObjects(objs, mathCode)
    requires i <= |t|
    requires SubPass(t, mathCode, objs, testEnv, tolerate, i).Ok?
    ensures var p := SubPass(t, mathCode, objs, testEnv, tolerate, i).value;
      CostSum(objs, mathCode, Tokens(p.text, mathCode, 0)) + |p.indices| == CostSum(objs, mathCode, Tokens(t, mathCode, i))
    decreases |t| - i
  {
    var q := NextToken(t, mathCode, i);
    var p := SubPass(t, mathCode, objs, testEnv, tolerate, i).value;
    if q == |t| {
      TokensAtNext(t, mathCode, i);
      TokensShift(t[..i], t[i..], mathCode, 0);
      assert t[..i] + t[i..] == t;
    } else {
      TokensAtMatch(t, mathCode, i);
      var tok := TokenAt(t, mathCode, q).value;
      var rep := GetObj(tok.index, objs, testEnv, tolerate).value;
      var rest := SubPass(t, mathCode, objs, testEnv, tolerate, tok.end).value;
      PassWeight(t, mathCode, objs, testEnv, tolerate, tok.end);
      ReplacementCost(objs, mathCode, tok.index, rep, testEnv, tolerate);
      assert p.text == t[i..q] + rep + rest.text;
      GapNoTokens(t, mathCode, i);
      ReplacedCost(objs, mathCode, t[i..q], rep, rest.text);
      CostSumAppend(objs, mathCode, [tok.index], Tokens(t, mathCode, tok.end));
    }
  }

  // ---------------------------------------------------------------------
  // The loop of `recover_latex_objects`.

  /** What the passes produce: the final text, every index `get_obj`
      appended, and the sum of the substitution counts. */
  datatype Recovery = Recovery(text: string, indices: seq<nat>, total: nat)

  /** `Ok(r)` with `indices` and `total` put in front of the rest. */
  function After(indices: seq<nat>, total: nat, res: Result<Recovery, Failure>): Result<Recovery, Failure>
  {
    match res
    case Err(e) => Err(e)
    case Ok(r) => Ok(Recovery(r.text, indices + r.indices, total + r.total))
  }

  lemma AfterAfter(a: seq<nat>, n: nat, b: seq<nat>, m: nat, res: Result<Recovery, Failure>)
    ensures After(a, n, After(b, m, res)) == After(a + b, n + m, res)
  {
    if res.Ok? {
      assert a + (b + res.value.indices) == (a + b) + res.value.indices;
    }
  }

  /** Collecting `a` after `b` has been collected in front of `rest`. */
  lemma AfterStep(res: Result<Recovery, Failure>, a: seq<nat>, n: nat, b: seq<nat>, m: nat, rest: Result<Recovery, Failure>, ab: seq<nat>, nm: nat)
    requires res == After(b, m, rest) && ab == a + b && nm == n + m
    ensures After(a, n, res) == After(ab, nm, rest)
  {
    AfterAfter(a, n, b, m, rest);
  }

  /** `while True: text, numModify = pattern.subn(...); ...; if numModify == 0: break`. */
  function RecoverFrom(t: string, mathCode: string, objs: seq<string>, testEnv: bool, tolerate: bool): Result<Recovery, Failure>
    requires ValidMathCode(mathCode) && NestedObjects(objs, mathCode)
    decreases TextWeight(objs, mathCode, t)
  {
    match SubPass(t, mathCode, objs, testEnv, tolerate, 0)
    case Err(e) => Err(e)
    case Ok(p) =>
      if |p.indices| == 0 then Ok(Recovery(p.text, [], 0))
      else
        PassWeight(t, mathCode, objs, testEnv, tolerate, 0);
        After(p.indices, |p.indices|, RecoverFrom(p.text, mathCode, objs, testEnv, tolerate))
  }

  /** When the passes end, no placeholder and no `<mathCode>_` is left,
      and the substitutions counted are the indices recorded. */
  lemma {:induction false} RecoverFromDone(t: string, mathCode: string, objs: seq<string>, testEnv: bool, tolerate: bool)
    requires ValidMathCode(mathCode) && NestedObjects(objs, mathCode)
    requires RecoverFrom(t, mathCode, objs, testEnv, tolerate).Ok?
    ensures var r := RecoverFrom(t, mathCode, objs, testEnv, tolerate).value;
      (forall p :: 0 <= p < |r.text| ==> !SentinelAt(r.text, mathCode, p)) && r.total == |r.indices|
    decreases TextWeight(objs, mathCode, t)
  {
    var p := SubPass(t, mathCode, objs, testEnv, tolerate, 0).value;
    SubPassIndices(t, mathCode, objs, testEnv, tolerate, 0);
    if |p.indices| == 0 {
      SubPassNoMatch(t, mathCode, objs, testEnv, tolerate);
      TokensEmpty(t, mathCode, 0);
    } else {
      PassWeight(t, mathCode, objs, testEnv, tolerate, 0);
      RecoverFromDone(p.text, mathCode, objs, testEnv, tolerate);
    }
  }

  /** A text without placeholders is recovered unchanged in one pass. */
  lemma RecoverFromPlain(t: string, mathCode: string, objs: seq<string>, testEnv: bool, tolerate: bool)
    requires ValidMathCode(mathCode) && NestedObjects(objs, mathCode)
    requires forall p :: 0 <= p < |t| ==> !SentinelAt(t, mathCode, p)
    ensures RecoverFrom(t, mathCode, objs, testEnv, tolerate) == Ok(Recovery(t, [], 0))
  {
    TokensEmpty(t, mathCode, 0);
    SubPassNoMatch(t, mathCode, objs, testEnv, tolerate);
  }

  /** The result of `recover_latex_objects`: `(text, nBad, nobjs)`. */
  datatype Recovered = Recovered(text: string, nBad: int, nobjs: nat)

  /** One turn of the loop: a pass with substitutions lowers the weight and
      the recovery goes on from its text. */
  lemma RecoverFromStep(t: string, mathCode: string, objs: seq<string>, testEnv: bool, tolerate: bool)
    requires ValidMathCode(mathCode) && NestedObjects(objs, mathCode)
    requires SubPass(t, mathCode, objs, testEnv, tolerate, 0).Ok?
    requires |SubPass(t, mathCode, objs, testEnv, tolerate, 0).value.indices| > 0
    ensures var p := SubPass(t, mathCode, objs, testEnv, tolerate, 0).value;
      && TextWeight(objs, mathCode, p.text) < TextWeight(objs, mathCode, t)
      && RecoverFrom(t, mathCode, objs, testEnv, tolerate) == After(p.indices, |p.indices|, RecoverFrom(p.text, mathCode, objs, testEnv, tolerate))
  {
    PassWeight(t, mathCode, objs, testEnv, tolerate, 0);
  }

  /** What one turn of the loop leads to: another turn from a new text with
      more indices collected, or the end of the recovery. */
  datatype Turn = Continue(text: string, indices: seq<nat>, total: nat) | Finish(result: Result<Recovery, Failure>)

  /** A turn taken from text `t`, with `indices` and `total` collected so
      far, agrees with the passes: it finishes with what they end with, or it
      goes on from a lighter text towards the same end. */
  predicate Leads(t: string, mathCode: string, objs: seq<string>, testEnv: bool, tolerate: bool, indices: seq<nat>, total: nat, turn: Turn)
    requires ValidMathCode(mathCode) && NestedObjects(objs, mathCode)
  {
    match turn
    case Finish(r) => r == After(indices, total, RecoverFrom(t, mathCode, objs, testEnv, tolerate))
    case Continue(next, b, m) =>
      && TextWeight(objs, mathCode, next) < TextWeight(objs, mathCode, t)
      && After(indices, total, RecoverFrom(t, mathCode, objs, testEnv, tolerate))
         == After(b, m, RecoverFrom(next, mathCode, objs, testEnv, tolerate))
  }

  /** One turn of the loop: a failed pass ends the recovery with its error,
      whatever was collected before. */
  lemma PassesErr(t: string, mathCode: string, objs: seq<string>, testEnv: bool, tolerate: bool, a: seq<nat>, n: nat, turn: Turn)
    requires ValidMathCode(mathCode) && NestedObjects(objs, mathCode)
    requires SubPass(t, mathCode, objs, testEnv, tolerate, 0).Err?
    requires turn == Finish(Err(SubPass(t, mathCode, objs, testEnv, tolerate, 0).error))
    ensures Leads(t, mathCode, objs, testEnv, tolerate, a, n, turn)
  {
  }

  /** One turn of the loop: a pass without substitution ends the recovery
      with its text and what was collected before. */
  lemma PassesStop(t: string, mathCode: string, objs: seq<string>, testEnv: bool, tolerate: bool, a: seq<nat>, n: nat, turn: Turn)
    requires ValidMathCode(mathCode) && NestedObjects(objs, mathCode)
    requires SubPass(t, mathCode, objs, testEnv, tolerate, 0).Ok?
    requires |SubPass(t, mathCode, objs, testEnv, tolerate, 0).value.indices| == 0
    requires turn == Finish(Ok(Recovery(SubPass(t, mathCode, objs, testEnv, tolerate, 0).value.text, a, n)))
    ensures Leads(t, mathCode, objs, testEnv, tolerate, a, n, turn)
  {
    assert a + [] == a;
  }

  /** One turn of the loop: a pass with substitutions adds its indices and
      count to those collected, and the recovery goes on from its text. */
  lemma PassesStep(t: string, mathCode: string, objs: seq<string>, testEnv: bool, tolerate: bool, a: seq<nat>, n: nat, turn: Turn)
    requires ValidMathCode(mathCode) && NestedObjects(objs, mathCode)
    requires SubPass(t, mathCode, objs, testEnv, tolerate, 0).Ok?
    requires |SubPass(t, mathCode, objs, testEnv, tolerate, 0).value.indices| > 0
    requires var p := SubPass(t, mathCode, objs, testEnv, tolerate, 0).value;
      turn == Continue(p.text, a + p.indices, n + |p.indices|)
    ensures Leads(t, mathCode, objs, testEnv, tolerate, a, n, turn)
  {
    var p := SubPass(t, mathCode, objs, testEnv, tolerate, 0).value;
    assert turn.text == p.text;
    RecoverFromStep(t, mathCode, objs, testEnv, tolerate);
    AfterStep(RecoverFrom(t, mathCode, objs, testEnv, tolerate), a, n, p.indices, |p.indices|,
      RecoverFrom(turn.text, mathCode, objs, testEnv, tolerate), turn.indices, turn.total);
  }

  /** The body of the `while True` loop of `recover_latex_objects`: one
      substitution pass, after which the loop breaks, raises or goes on. */
  method PassTurn(t: string, mathCode: string, objs: seq<string>, testEnv: bool, tolerate: bool, a: seq<nat>, n: nat)
    returns (turn: Turn)
    requires ValidMathCode(mathCode) && NestedObjects(objs, mathCode)
    ensures Leads(t, mathCode, objs, testEnv, tolerate, a, n, turn)
  {
    var pass := SubPass(t, mathCode, objs, testEnv, tolerate, 0);
    if pass.Err? {
      turn := Finish(Err(pass.error));
      PassesErr(t, mathCode, objs, testEnv, tolerate, a, n, turn);
    } else if |pass.value.indices| == 0 {
      turn := Finish(Ok(Recovery(pass.value.text, a, n)));
      PassesStop(t, mathCode, objs, testEnv, tolerate, a, n, turn);
    } else {
      turn := Continue(pass.value.text, a + pass.value.indices, n + |pass.value.indices|);
      PassesStep(t, mathCode, objs, testEnv, tolerate, a, n, turn);
    }
  }

  /** The `while True` loop of `recover_latex_objects`: passes until one
      makes no substitution, collecting the indices and the counts. */
  method Passes(text: string, mathCode: string, objs: seq<string>, testEnv: bool, tolerate: bool)
    returns (r: Result<Recovery, Failure>)
    requires ValidMathCode(mathCode) && NestedObjects(objs, mathCode)
    ensures r == RecoverFrom(text, mathCode, objs, testEnv, tolerate)
  {
    var matchedIndices: seq<nat> := [];
    var totalNum: nat := 0;
    var t := text;
    ghost var res := RecoverFrom(t, mathCode, objs, testEnv, tolerate);
    assert After(matchedIndices, totalNum, res) == res by {
      if res.Ok? { assert [] + res.value.indices == res.value.indices; }
    }
    while true
      invariant res == After(matchedIndices, totalNum, RecoverFrom(t, mathCode, objs, testEnv, tolerate))
      decreases TextWeight(objs, mathCode, t)
    {
      var turn := PassTurn(t, mathCode, objs, testEnv, tolerate, matchedIndices, totalNum);
      if turn.Finish? {
        return turn.result;
      }
      t, matchedIndices, totalNum := turn.text, turn.indices, turn.total;
    }
  }

  /** `recover_latex_objects(text, replacedObjs, tolerateError)`. */
  method RecoverLatexObjects(text: string, replacedObjs: seq<string>, mathCode: string, testEnv: bool, tolerateError: bool)
    returns (r: Result<Recovered, Failure>)
    requires ValidMathCode(mathCode) && NestedObjects(replacedObjs, mathCode)
    ensures var res := RecoverFrom(ModifyText(text, mathCode, ModifyAfter), mathCode, replacedObjs, testEnv, tolerateError);
      (r.Err? <==> res.Err?) && (r.Err? ==> r.error == res.error) &&
      (r.Ok? ==> r.value == Recovered(res.value.text, NBad(res.value.indices, |replacedObjs|), |replacedObjs|))
    ensures r.Ok? ==> r.value.nBad >= 0 && forall p :: 0 <= p < |r.value.text| ==> !SentinelAt(r.value.text, mathCode, p)
  {
    var nobjs := |replacedObjs|;
    var t := ModifyText(text, mathCode, ModifyAfter);
    var rec := Passes(t, mathCode, replacedObjs, testEnv, tolerateError);
    if rec.Err? {
      return Err(rec.error);
    }
    RecoverFromDone(t, mathCode, replacedObjs, testEnv, tolerateError);
    NBadNonNegative(rec.value.indices, nobjs);
    r := Ok(Recovered(rec.value.text, NBad(rec.value.indices, nobjs), nobjs));
  }
}
