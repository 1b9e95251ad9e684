/** The two orbit walks: the single-origin check and the full decomposition into
    two-sided and one-sided components. */
module Components {
  import opened Strands
  import opened SignedPermutations
  import opened Collections
  import opened Transition
  import opened Orbits
  import opened Cycles
  import opened Arithmetic

  /** Walks the cycle of `Transverse(0)`, counting its steps and the parity of its flips:
      the first result says whether that cycle is the whole strand space. */
  method HasOneComponent(p: SignedPermutation, m: nat, n: nat) returns (oneComponent: bool, orientability: nat)
    requires p.Valid() && n >= 1
    ensures oneComponent <==> Period(p, m, n, Transverse(0)) == SpaceSize(p, m, n)
    ensures oneComponent <==> Orbit(p, m, n, Transverse(0)) == AllStrands(p, m, n)
    ensures orientability == Parity(p, m, n, Transverse(0))
  {
    var expectedOrbitLength := m * |p.permutation| + n;
    var actualOrbitLength := 1;
    var startingStrand := Transverse(0);
    var step := NextMajorStrand(p, m, n, startingStrand);
    var nextStrand := step.0;
    orientability := step.1;
    while nextStrand != startingStrand
      invariant 1 <= actualOrbitLength <= Period(p, m, n, startingStrand)
      invariant nextStrand == Iterate(p, m, n, startingStrand, actualOrbitLength)
      invariant orientability == FlipCount(p, m, n, startingStrand, actualOrbitLength) % 2
      decreases Period(p, m, n, startingStrand) - actualOrbitLength
    {
      step := NextMajorStrand(p, m, n, nextStrand);
      nextStrand := step.0;
      assert FlipCount(p, m, n, startingStrand, actualOrbitLength + 1) ==
             FlipCount(p, m, n, startingStrand, actualOrbitLength) + step.1;
      ParityAdd(FlipCount(p, m, n, startingStrand, actualOrbitLength), step.1);
      orientability := (orientability + step.1) % 2;
      actualOrbitLength := actualOrbitLength + 1;
    }
    assert actualOrbitLength == Period(p, m, n, startingStrand);
    assert orientability == Parity(p, m, n, startingStrand);
    oneComponent := expectedOrbitLength == actualOrbitLength;
    assert expectedOrbitLength == SpaceSize(p, m, n);
    OrbitIsWholeSpace(p, m, n, startingStrand);
  }

  /** Removes the least strand from an ordered set of strands. */
  method PopFirst(strands: set<Strand>) returns (first: Strand, rest: set<Strand>)
    requires strands != {}
    ensures IsLeast(first, strands)
    ensures rest == strands - {first}
  {
    LeastExists(strands);
    first :| first in strands && IsLeast(first, strands);
    rest := strands - {first};
  }

  /** Sum of the cycle lengths of the origins `origins`. */
  function SumOfPeriods(p: SignedPermutation, m: nat, n: nat, origins: seq<Strand>): (r: nat)
    requires p.Valid() && forall i :: 0 <= i < |origins| ==> ValidStrand(p, m, n, origins[i])
  {
    if origins == [] then 0
    else SumOfPeriods(p, m, n, origins[..|origins| - 1]) + Period(p, m, n, origins[|origins| - 1])
  }

  /** The ordered set of all strands, filled as `count_components_with_orientability`
      fills it: the transverse strands, then every copy of every permutation strand. */
  method InitialStrands(p: SignedPermutation, m: nat, n: nat) returns (strands: set<Strand>)
    ensures strands == AllStrands(p, m, n)
  {
    strands := {};
    for i := 0 to n
      invariant strands == set i' | 0 <= i' < i :: Transverse(i')
    {
      strands := strands + {Transverse(i)};
    }
    ghost var transverse := strands;
    for j := 0 to |p.permutation|
      invariant strands == transverse + set j', k' | 0 <= j' < j && 0 <= k' < m :: PermutationDirection(j', k')
    {
      for k := 0 to m
        invariant strands == transverse +
                             (set j', k' | 0 <= j' < j && 0 <= k' < m :: PermutationDirection(j', k')) +
                             (set k' | 0 <= k' < k :: PermutationDirection(j, k'))
      {
        strands := strands + {PermutationDirection(j, k)};
      }
    }
  }

  /** Walks the cycle from `firstStrand` (already taken out of `strands`) back to it,
      removing every strand it passes and adding up the flips it crosses. */
  method WalkCycle(p: SignedPermutation, m: nat, n: nat, firstStrand: Strand, strands: set<Strand>)
    returns (orientability: nat, remaining: set<Strand>)
    requires p.Valid() && ValidStrand(p, m, n, firstStrand)
    requires firstStrand !in strands
    ensures orientability == FlipCount(p, m, n, firstStrand, Period(p, m, n, firstStrand))
    ensures remaining == strands - Orbit(p, m, n, firstStrand)
  {
    remaining := strands;
    var step := NextMajorStrand(p, m, n, firstStrand);
    orientability := step.1;
    var nextStrand := step.0;
    ghost var steps := 1;
    VisitedStep(p, m, n, firstStrand, 0);
    while nextStrand != firstStrand
      invariant 1 <= steps <= Period(p, m, n, firstStrand)
      invariant nextStrand == Iterate(p, m, n, firstStrand, steps)
      invariant orientability == FlipCount(p, m, n, firstStrand, steps)
      invariant remaining == strands - Visited(p, m, n, firstStrand, steps)
      decreases Period(p, m, n, firstStrand) - steps
    {
      step := NextMajorStrand(p, m, n, nextStrand);
      remaining := remaining - {nextStrand};
      orientability := orientability + step.1;
      VisitedStep(p, m, n, firstStrand, steps);
      nextStrand := step.0;
      steps := steps + 1;
    }
  }

  /** The strands in `done` form whole cycles, `origins` lists one valid strand per
      cycle taken out, and the cycles' periods add up to the number of strands in `done`. */
  ghost predicate Covered(p: SignedPermutation, m: nat, n: nat, done: set<Strand>, origins: seq<Strand>)
    requires p.Valid()
  {
    && done <= AllStrands(p, m, n)
    && UnionOfOrbits(p, m, n, done)
    && (forall i :: 0 <= i < |origins| ==> ValidStrand(p, m, n, origins[i]))
    && SumOfPeriods(p, m, n, origins) == |done|
  }

  /** The counters count the cycle origins in `done` by parity, and `origins` lists them. */
  ghost predicate Tallied(p: SignedPermutation, m: nat, n: nat, done: set<Strand>,
                          twoSided: nat, oneSided: nat, origins: seq<Strand>)
    requires p.Valid()
  {
    && twoSided == |OriginsWithParity(p, m, n, done, 0)|
    && oneSided == |OriginsWithParity(p, m, n, done, 1)|
    && |origins| == twoSided + oneSided
    && Elements(origins) == OriginsWithParity(p, m, n, done, 0) + OriginsWithParity(p, m, n, done, 1)
  }

  /** Before the first drain round nothing is removed and both counters are zero. */
  lemma ProgressStart(p: SignedPermutation, m: nat, n: nat)
    requires p.Valid()
    ensures Covered(p, m, n, {}, [])
    ensures Tallied(p, m, n, {}, 0, 0, [])
  {
    assert OriginsWithParity(p, m, n, {}, 0) == {};
    assert OriginsWithParity(p, m, n, {}, 1) == {};
  }

  /** Appending an origin adds its period to the sum of periods. */
  lemma SumOfPeriodsAppend(p: SignedPermutation, m: nat, n: nat, origins: seq<Strand>, last: Strand)
    requires p.Valid() && ValidStrand(p, m, n, last)
    requires forall i :: 0 <= i < |origins| ==> ValidStrand(p, m, n, origins[i])
    ensures forall i :: 0 <= i < |origins + [last]| ==> ValidStrand(p, m, n, (origins + [last])[i])
    ensures SumOfPeriods(p, m, n, origins + [last]) == SumOfPeriods(p, m, n, origins) + Period(p, m, n, last)
  {
    assert (origins + [last])[..|origins|] == origins;
  }

  /** Taking out the whole cycle of the least remaining strand keeps `Covered`. */
  lemma CoveredStep(p: SignedPermutation, m: nat, n: nat, remaining: set<Strand>, first: Strand,
                    origins: seq<Strand>, remaining': set<Strand>)
    requires p.Valid() && remaining <= AllStrands(p, m, n)
    requires Covered(p, m, n, AllStrands(p, m, n) - remaining, origins)
    requires first in remaining && IsLeast(first, remaining)
    requires remaining' == remaining - Orbit(p, m, n, first)
    ensures remaining' <= AllStrands(p, m, n)
    ensures Covered(p, m, n, AllStrands(p, m, n) - remaining', origins + [first])
  {
    RemoveCycle(p, m, n, remaining, first);
    SumOfPeriodsAppend(p, m, n, origins, first);
  }

  /** Adding one origin of parity `parity` to the tallies. */
  lemma TallyStep(even: set<Strand>, odd: set<Strand>, even': set<Strand>, odd': set<Strand>,
                  first: Strand, parity: nat, twoSided: nat, oneSided: nat, origins: seq<Strand>)
    requires parity < 2
    requires even' == even + (if parity == 0 then {first} else {})
    requires odd' == odd + (if parity == 1 then {first} else {})
    requires first !in even && first !in odd
    requires twoSided == |even| && oneSided == |odd| && Elements(origins) == even + odd
    ensures twoSided + (if parity == 0 then 1 else 0) == |even'|
    ensures oneSided + (if parity == 1 then 1 else 0) == |odd'|
    ensures Elements(origins + [first]) == even' + odd'
  {
    assert Elements(origins + [first]) == Elements(origins) + {first};
  }

  /** Taking out the whole cycle of the least remaining strand counts its origin once,
      under its parity. */
  lemma TalliedStep(p: SignedPermutation, m: nat, n: nat, remaining: set<Strand>, first: Strand,
                    twoSided: nat, oneSided: nat, origins: seq<Strand>,
                    remaining': set<Strand>, twoSided': nat, oneSided': nat)
    requires p.Valid() && remaining <= AllStrands(p, m, n)
    requires Covered(p, m, n, AllStrands(p, m, n) - remaining, origins)
    requires Tallied(p, m, n, AllStrands(p, m, n) - remaining, twoSided, oneSided, origins)
    requires first in remaining && IsLeast(first, remaining) && ValidStrand(p, m, n, first)
    requires remaining' == remaining - Orbit(p, m, n, first)
    requires twoSided' == twoSided + (if Parity(p, m, n, first) == 0 then 1 else 0)
    requires oneSided' == oneSided + (if Parity(p, m, n, first) == 1 then 1 else 0)
    ensures Tallied(p, m, n, AllStrands(p, m, n) - remaining', twoSided', oneSided', origins + [first])
  {
    var all := AllStrands(p, m, n);
    var done := all - remaining;
    var done' := all - remaining';
    var parity := Parity(p, m, n, first);
    assert Orbit(p, m, n, first) <= remaining && IsCycleOrigin(p, m, n, first) by {
      LeastRemainingIsOrigin(p, m, n, remaining, first);
    }
    assert done' == done + Orbit(p, m, n, first) && done * Orbit(p, m, n, first) == {} by {
      MoveToDone(all, remaining, Orbit(p, m, n, first));
    }
    assert first !in OriginsWithParity(p, m, n, done, 0) &&
           OriginsWithParity(p, m, n, done', 0) ==
           OriginsWithParity(p, m, n, done, 0) + (if parity == 0 then {first} else {}) by {
      OriginsAfterAddingCycle(p, m, n, done, first, 0);
    }
    assert first !in OriginsWithParity(p, m, n, done, 1) &&
           OriginsWithParity(p, m, n, done', 1) ==
           OriginsWithParity(p, m, n, done, 1) + (if parity == 1 then {first} else {}) by {
      OriginsAfterAddingCycle(p, m, n, done, first, 1);
    }
    TallyStep(OriginsWithParity(p, m, n, done, 0), OriginsWithParity(p, m, n, done, 1),
              OriginsWithParity(p, m, n, done', 0), OriginsWithParity(p, m, n, done', 1),
              first, parity, twoSided, oneSided, origins);
    assert twoSided' == |OriginsWithParity(p, m, n, done', 0)|;
    assert oneSided' == |OriginsWithParity(p, m, n, done', 1)|;
    assert |origins| == twoSided + oneSided;
    assert twoSided' + oneSided' == twoSided + oneSided + 1;
  }

  /** One drain round, from the popped least strand to the classified cycle, keeps both
      `Covered` and `Tallied`. */
  lemma DrainStep(p: SignedPermutation, m: nat, n: nat, before: set<Strand>, first: Strand,
                  orientability: nat, twoSided: nat, oneSided: nat, origins: seq<Strand>,
                  strands: set<Strand>, twoSided': nat, oneSided': nat)
    requires p.Valid() && before <= AllStrands(p, m, n)
    requires Covered(p, m, n, AllStrands(p, m, n) - before, origins)
    requires Tallied(p, m, n, AllStrands(p, m, n) - before, twoSided, oneSided, origins)
    requires first in before && IsLeast(first, before) && ValidStrand(p, m, n, first)
    requires strands == before - {first} - Orbit(p, m, n, first)
    requires orientability == FlipCount(p, m, n, first, Period(p, m, n, first))
    requires twoSided' == twoSided + (if orientability % 2 == 0 then 1 else 0)
    requires oneSided' == oneSided + (if orientability % 2 == 0 then 0 else 1)
    ensures |strands| < |before|
    ensures strands <= AllStrands(p, m, n)
    ensures Covered(p, m, n, AllStrands(p, m, n) - strands, origins + [first])
    ensures Tallied(p, m, n, AllStrands(p, m, n) - strands, twoSided', oneSided', origins + [first])
  {
    OrbitIsInSpace(p, m, n, first);
    RemoveWithPart(before, first, Orbit(p, m, n, first));
    assert Parity(p, m, n, first) == orientability % 2;
    TalliedStep(p, m, n, before, first, twoSided, oneSided, origins, strands, twoSided', oneSided');
    CoveredStep(p, m, n, before, first, origins, strands);
  }

  /** Once every strand is removed, the counters are the component counts, the starts are
      the cycle origins and the periods sum to `L*m + n`. */
  lemma ProgressEnd(p: SignedPermutation, m: nat, n: nat, twoSided: nat, oneSided: nat, origins: seq<Strand>)
    requires p.Valid()
    requires Covered(p, m, n, AllStrands(p, m, n) - {}, origins)
    requires Tallied(p, m, n, AllStrands(p, m, n) - {}, twoSided, oneSided, origins)
    ensures (twoSided, oneSided) == ComponentCounts(p, m, n)
    ensures Elements(origins) == CycleOrigins(p, m, n)
    ensures SumOfPeriods(p, m, n, origins) == SpaceSize(p, m, n)
  {
    var all := AllStrands(p, m, n);
    assert all - {} == all;
    var even, odd := OriginsWithParity(p, m, n, all, 0), OriginsWithParity(p, m, n, all, 1);
    assert twoSided == |even| && oneSided == |odd|;
    assert (twoSided, oneSided) == ComponentCounts(p, m, n);
    assert Elements(origins) == even + odd;
    assert CycleOrigins(p, m, n) == even + odd by {
      CycleOriginsByParity(p, m, n);
    }
    assert SumOfPeriods(p, m, n, origins) == |all|;
    assert |all| == SpaceSize(p, m, n) by {
      AllStrandsCard(p, m, n);
    }
  }

  /** Decomposes the strand space into cycles, starting each cycle from the least strand
      not yet visited, and counts the cycles with an even (two-sided) and an odd
      (one-sided) number of flips. `origins` lists the strand each cycle was started from. */
  method CountComponentsWithOrientability(p: SignedPermutation, m: nat, n: nat)
    returns (twoSidedComponents: nat, oneSidedComponents: nat, ghost origins: seq<Strand>)
    requires p.Valid()
    ensures (twoSidedComponents, oneSidedComponents) == ComponentCounts(p, m, n)
    ensures |origins| == twoSidedComponents + oneSidedComponents
    ensures Elements(origins) == CycleOrigins(p, m, n)
    ensures forall i :: 0 <= i < |origins| ==> ValidStrand(p, m, n, origins[i])
    ensures SumOfPeriods(p, m, n, origins) == SpaceSize(p, m, n)
  {
    twoSidedComponents, oneSidedComponents := 0, 0;
    var strands := InitialStrands(p, m, n);
    origins := [];
    ghost var all := AllStrands(p, m, n);
    ProgressStart(p, m, n);
    assert all - strands == {};
    while strands != {}
      invariant strands <= all
      invariant Covered(p, m, n, all - strands, origins)
      invariant Tallied(p, m, n, all - strands, twoSidedComponents, oneSidedComponents, origins)
      decreases |strands|
    {
      ghost var before := strands;
      var firstStrand;
      firstStrand, strands := PopFirst(strands);
      assert ValidStrand(p, m, n, firstStrand);
      var orientability;
      orientability, strands := WalkCycle(p, m, n, firstStrand, strands);
      ghost var twoSidedBefore, oneSidedBefore := twoSidedComponents, oneSidedComponents;
      if orientability % 2 == 0 {
        twoSidedComponents := twoSidedComponents + 1;
      } else {
        oneSidedComponents := oneSidedComponents + 1;
      }
      DrainStep(p, m, n, before, firstStrand, orientability, twoSidedBefore, oneSidedBefore, origins,
                strands, twoSidedComponents, oneSidedComponents);
      origins := origins + [firstStrand];
    }
    ProgressEnd(p, m, n, twoSidedComponents, oneSidedComponents, origins);
  }
}
