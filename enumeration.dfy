/** The enumerators over all coprime pairs up to a complexity bound: for every complexity
    `k = m + n` with `2 <= k < complexity` and every `1 <= n < k` coprime to `k`, the
    component counts of `(m, n)`. The results are listed in one fixed order here; callers
    may rely only on which pairs appear, not on their order. */
module Enumeration {
  import opened SignedPermutations
  import opened Collections
  import opened Cycles
  import opened Components
  import opened Divisibility

  /** The pairs `(m, n)` the enumerators visit for a complexity bound. */
  predicate Selected(complexity: nat, m: nat, n: nat) {
    var k := m + n;
    2 <= k < complexity && 1 <= n < k && Gcd(k, n) == 1
  }

  /** Selected pairs have at least one copy of each kind of strand, and `m` and `n` are coprime. */
  lemma SelectedPairs(complexity: nat, m: nat, n: nat)
    requires Selected(complexity, m, n)
    ensures m >= 1 && n >= 1
    ensures forall d: nat :: Divides(d, m) && Divides(d, n) ==> d == 1
  {
    forall d: nat | Divides(d, m) && Divides(d, n) ensures d == 1 {
      assert m + n == n + m;
      EuclidStep(d, m + n, n);
      assert (m + n) % n == m % n by {
        ModAddMultiple(m, n, 1);
      }
      EuclidStep(d, m, n);
      GcdGreatest(m + n, n, d);
    }
  }

  /** The pair `(m, n)` is selected and comes before position `(k, next)` of the enumeration:
      its complexity is below `k`, or it is `k` and its `n` is below `next`. */
  predicate SelectedBefore(complexity: nat, k: nat, next: nat, m: nat, n: nat) {
    Selected(complexity, m, n) && (m + n < k || (m + n == k && n < next))
  }

  /** Moving past `n` at complexity `k` adds exactly the pair `(k - n, n)`, when it is selected. */
  lemma SelectedBeforeNext(complexity: nat, k: nat, next: nat)
    requires 1 <= next < k
    ensures forall mn: (nat, nat) :: SelectedBefore(complexity, k, next + 1, mn.0, mn.1) <==>
              SelectedBefore(complexity, k, next, mn.0, mn.1) ||
              (mn == (k - next, next) && Selected(complexity, k - next, next))
  {
  }

  /** Finishing complexity `k` is starting complexity `k + 1`. */
  lemma SelectedBeforeNextComplexity(complexity: nat, k: nat)
    ensures forall mn: (nat, nat) :: SelectedBefore(complexity, k, k, mn.0, mn.1) <==>
              SelectedBefore(complexity, k + 1, 0, mn.0, mn.1)
  {
  }

  /** Nothing comes before complexity 2, and everything selected comes before the bound. */
  lemma SelectedBeforeEnds(complexity: nat, k: nat)
    ensures forall mn: (nat, nat) :: !SelectedBefore(complexity, 2, 0, mn.0, mn.1)
    ensures complexity <= k ==>
              forall mn: (nat, nat) :: SelectedBefore(complexity, k, 0, mn.0, mn.1) <==> Selected(complexity, mn.0, mn.1)
  {
  }

  /** The `(m, n)` keys of a list of results. */
  function Keys<V>(results: seq<((nat, nat), V)>): (r: seq<(nat, nat)>)
    ensures |r| == |results|
    ensures forall i :: 0 <= i < |results| ==> r[i] == results[i].0
  {
    seq(|results|, i requires 0 <= i < |results| => results[i].0)
  }

  /** Appending a result appends its key. */
  lemma KeysAppend<V>(results: seq<((nat, nat), V)>, entry: ((nat, nat), V))
    ensures Keys(results + [entry]) == Keys(results) + [entry.0]
  {
  }

  /** Appending a result whose pair is new keeps the keys free of repetitions. */
  lemma DistinctKeysAppend<V>(results: seq<((nat, nat), V)>, entry: ((nat, nat), V))
    requires Distinct(Keys(results)) && entry.0 !in Keys(results)
    ensures Keys(results + [entry]) == Keys(results) + [entry.0]
    ensures Distinct(Keys(results + [entry]))
  {
    KeysAppend(results, entry);
    DistinctAppend(Keys(results), entry.0);
  }

  /** Counts the two-sided and one-sided components of every selected pair, once per pair. */
  method CountComponentsUpToComplexity(p: SignedPermutation, complexity: nat)
    returns (results: seq<((nat, nat), (nat, nat))>)
    requires p.Valid()
    ensures forall mn :: mn in Keys(results) <==> Selected(complexity, mn.0, mn.1)
    ensures Distinct(Keys(results))
    ensures forall i :: 0 <= i < |results| ==>
              results[i].1 == ComponentCounts(p, results[i].0.0, results[i].0.1)
  {
    results := [];
    var k: nat := 2;
    SelectedBeforeEnds(complexity, k);
    while k < complexity
      invariant 2 <= k
      invariant forall mn :: mn in Keys(results) <==> SelectedBefore(complexity, k, 0, mn.0, mn.1)
      invariant Distinct(Keys(results))
      invariant forall i :: 0 <= i < |results| ==>
                  results[i].1 == ComponentCounts(p, results[i].0.0, results[i].0.1)
    {
      var n: nat := 1;
      while n < k
        invariant 1 <= n <= k
        invariant forall mn :: mn in Keys(results) <==> SelectedBefore(complexity, k, n, mn.0, mn.1)
        invariant Distinct(Keys(results))
        invariant forall i :: 0 <= i < |results| ==>
                    results[i].1 == ComponentCounts(p, results[i].0.0, results[i].0.1)
      {
        SelectedBeforeNext(complexity, k, n);
        if Gcd(k, n) == 1 {
          var m: nat := k - n;
          var twoSided, oneSided, _ := CountComponentsWithOrientability(p, m, n);
          assert !SelectedBefore(complexity, k, n, m, n);
          DistinctKeysAppend(results, ((m, n), (twoSided, oneSided)));
          results := results + [((m, n), (twoSided, oneSided))];
        }
        n := n + 1;
      }
      SelectedBeforeNextComplexity(complexity, k);
      k := k + 1;
    }
    SelectedBeforeEnds(complexity, k);
  }

  /** The keys of the results whose one-sided count is zero, in the results' order. */
  function TwoSidedKeys(results: seq<((nat, nat), (nat, nat))>): (r: seq<(nat, nat)>)
    ensures |r| <= |results|
  {
    if |results| == 0 then []
    else
      var last := results[|results| - 1];
      TwoSidedKeys(results[..|results| - 1]) + (if last.1.1 == 0 then [last.0] else [])
  }

  /** When the keys are free of repetitions, a result's key is kept exactly when its
      one-sided count is zero, nothing else is kept, and the kept keys are free of
      repetitions. */
  lemma {:induction false} TwoSidedKeysMembers(results: seq<((nat, nat), (nat, nat))>)
    requires Distinct(Keys(results))
    ensures forall i :: 0 <= i < |results| ==>
              (results[i].0 in TwoSidedKeys(results) <==> results[i].1.1 == 0)
    ensures forall mn :: mn in TwoSidedKeys(results) ==> mn in Keys(results)
    ensures Distinct(TwoSidedKeys(results))
  {
    if |results| > 0 {
      var init, last := results[..|results| - 1], results[|results| - 1];
      assert results == init + [last];
      KeysAppend(init, last);
      assert Distinct(Keys(init)) by {
        forall i, j | 0 <= i < j < |init| ensures Keys(init)[i] != Keys(init)[j] {
          assert Keys(init)[i] == Keys(results)[i] && Keys(init)[j] == Keys(results)[j];
        }
      }
      assert last.0 !in Keys(init) by {
        forall i | 0 <= i < |init| ensures Keys(init)[i] != last.0 {
          assert Keys(results)[i] == Keys(init)[i] && Keys(results)[|init|] == last.0;
        }
      }
      TwoSidedKeysMembers(init);
      var kept := TwoSidedKeys(init);
      if last.1.1 == 0 {
        DistinctAppend(kept, last.0);
      }
    }
  }

  /** Lists every selected pair, once, whose components are all two-sided: the
      enumeration's results filtered on a one-sided count of zero. */
  method TwoSidedMulticurvesUpToComplexity(p: SignedPermutation, complexity: nat)
    returns (pairs: seq<(nat, nat)>)
    requires p.Valid()
    ensures forall mn :: mn in pairs <==>
              Selected(complexity, mn.0, mn.1) && ComponentCounts(p, mn.0, mn.1).1 == 0
    ensures Distinct(pairs)
  {
    var results := CountComponentsUpToComplexity(p, complexity);
    pairs := TwoSidedKeys(results);
    TwoSidedKeysMembers(results);
    forall mn | mn in Keys(results)
      ensures mn in pairs <==> ComponentCounts(p, mn.0, mn.1).1 == 0
    {
      var i :| 0 <= i < |results| && Keys(results)[i] == mn;
      assert results[i].0 == mn;
    }
  }
}
