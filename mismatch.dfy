/** The mismatch count of `recover_latex_objects`: how far the indices the
    passes decoded are from naming every object exactly once. */
module Mismatch {

  /** `range(n)`. */
  function Range(n: nat): (r: seq<nat>)
    ensures |r| == n && forall i :: 0 <= i < n ==> r[i] == i
  {
    seq(n, i requires 0 <= i < n => i as nat)
  }

  function Elements(m: seq<nat>): set<nat>
  {
    set x | x in m
  }

  predicate Distinct(m: seq<nat>)
  {
    forall i, j :: 0 <= i < j < |m| ==> m[i] != m[j]
  }

  /** `nGood = len(set(matchedIndices).intersection(set(range(nobjs))))`. */
  function NGood(m: seq<nat>, n: nat): nat
  {
    |set x | x in m && x < n|
  }

  /** `nBad = max(len(matchedIndices) - nGood, nobjs - nGood)`. */
  function NBad(m: seq<nat>, n: nat): int
  {
    var good := NGood(m, n);
    if |m| - good >= n - good then |m| - good else n - good
  }

  /** `set(range(n))`. */
  function Below(n: nat): (r: set<nat>)
    ensures forall x: nat :: x in r <==> x < n
  {
    var r := set x | x in Range(n);
    forall x: nat ensures x in r <==> x < n {
      if x < n {
        assert Range(n)[x] == x;
      }
      if x in r {
        var i :| 0 <= i < n && Range(n)[i] == x;
      }
    }
    r
  }

  lemma {:induction false} BelowCard(n: nat)
    ensures |Below(n)| == n
  {
    if n > 0 {
      BelowCard(n - 1);
      assert Below(n) == Below(n - 1) + {n - 1};
    } else {
      assert Below(0) == {};
    }
  }

  lemma SubsetCard(s: set<nat>, r: set<nat>)
    requires s <= r
    ensures |s| <= |r|
    ensures |s| == |r| ==> s == r
  {
    assert r == s + (r - s);
    assert s * (r - s) == {};
    if |s| == |r| {
      assert |r - s| == 0;
    }
  }

  /** A sequence has at most as many elements as its length, and exactly as
      many when no element repeats. */
  lemma {:induction false} ElementsCard(m: seq<nat>)
    ensures |Elements(m)| <= |m|
    ensures |Elements(m)| == |m| ==> Distinct(m)
  {
    if |m| > 0 {
      var rest := m[1..];
      ElementsCard(rest);
      assert Elements(m) == {m[0]} + Elements(rest);
      if m[0] in Elements(rest) {
        assert Elements(m) == Elements(rest);
      } else if |Elements(m)| == |m| {
        forall i, j | 0 <= i < j < |m| ensures m[i] != m[j] {
          if i == 0 {
            assert m[j] == rest[j - 1];
          } else {
            assert m[i] == rest[i - 1] && m[j] == rest[j - 1];
          }
        }
      }
    } else {
      assert Elements(m) == {};
    }
  }

  /** In a sequence without repetitions every element occurs once. */
  lemma {:induction false} DistinctMultiplicity(m: seq<nat>, x: nat)
    requires Distinct(m)
    ensures multiset(m)[x] == if x in m then 1 else 0
  {
    if |m| > 0 {
      var rest := m[1..];
      assert m == [m[0]] + rest;
      assert Distinct(rest) by {
        forall i, j | 0 <= i < j < |rest| ensures rest[i] != rest[j] {
          assert rest[i] == m[i + 1] && rest[j] == m[j + 1];
        }
      }
      DistinctMultiplicity(rest, x);
      assert multiset(m) == multiset{m[0]} + multiset(rest);
      if x == m[0] {
        assert x !in rest by {
          forall j | 0 <= j < |rest| ensures rest[j] != x {
            assert rest[j] == m[j + 1];
          }
        }
      }
    }
  }

  lemma GoodBounds(m: seq<nat>, n: nat)
    ensures (set x | x in m && x < n) <= Below(n)
    ensures (set x | x in m && x < n) <= Elements(m)
    ensures NGood(m, n) <= n && NGood(m, n) <= |m|
  {
    var good := set x | x in m && x < n;
    BelowCard(n);
    SubsetCard(good, Below(n));
    SubsetCard(good, Elements(m));
    ElementsCard(m);
  }

  /** The count is never negative. */
  lemma NBadNonNegative(m: seq<nat>, n: nat)
    ensures NBad(m, n) >= 0
  {
    GoodBounds(m, n);
  }

  /** The count is zero exactly when the decoded indices are a permutation
      of `range(nobjs)`: every object recovered once, nothing else decoded. */
  lemma NBadZero(m: seq<nat>, n: nat)
    ensures NBad(m, n) == 0 <==> multiset(m) == multiset(Range(n))
  {
    var good := set x | x in m && x < n;
    GoodBounds(m, n);
    BelowCard(n);
    ElementsCard(Range(n));
    if NBad(m, n) == 0 {
      ElementsCard(m);
      SubsetCard(good, Elements(m));
      SubsetCard(good, Below(n));
      assert Distinct(Range(n));
      forall x: nat ensures multiset(m)[x] == multiset(Range(n))[x] {
        DistinctMultiplicity(m, x);
        DistinctMultiplicity(Range(n), x);
        assert x in m <==> x in Elements(m);
        assert x in Range(n) <==> x in Below(n);
      }
    }
    if multiset(m) == multiset(Range(n)) {
      assert |m| == n by {
        assert |multiset(m)| == |m| && |multiset(Range(n))| == n;
      }
      assert good == Below(n) by {
        forall x | x in Below(n) ensures x in good {
          assert x in multiset(Range(n)) by { assert Range(n)[x] == x; }
          assert x in multiset(m);
        }
      }
    }
  }
}
