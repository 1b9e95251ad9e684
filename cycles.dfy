/** The cycle decomposition of the strand space: one origin per cycle (its least strand),
    classified by the parity of the flips along the cycle. */
module Cycles {
  import opened Strands
  import opened SignedPermutations
  import opened Collections
  import opened Transition
  import opened Orbits

  /** `s` is the least strand of its own cycle: the strand the decomposition starts that cycle from. */
  predicate IsCycleOrigin(p: SignedPermutation, m: nat, n: nat, s: Strand)
    requires p.Valid() && ValidStrand(p, m, n, s)
  {
    IsLeast(s, Orbit(p, m, n, s))
  }

  /** The origins of all cycles. */
  function CycleOrigins(p: SignedPermutation, m: nat, n: nat): (r: set<Strand>)
    requires p.Valid()
  {
    set s | s in AllStrands(p, m, n) && IsCycleOrigin(p, m, n, s)
  }

  /** The origins in `strands` of the cycles whose flip count has parity `parity`. */
  function OriginsWithParity(p: SignedPermutation, m: nat, n: nat, strands: set<Strand>, parity: nat): (r: set<Strand>)
    requires p.Valid()
  {
    set s | s in strands && ValidStrand(p, m, n, s) && IsCycleOrigin(p, m, n, s) && Parity(p, m, n, s) == parity
  }

  /** The numbers of two-sided (even flip count) and one-sided (odd flip count) components. */
  function ComponentCounts(p: SignedPermutation, m: nat, n: nat): (r: (nat, nat))
    requires p.Valid()
  {
    var all := AllStrands(p, m, n);
    (|OriginsWithParity(p, m, n, all, 0)|, |OriginsWithParity(p, m, n, all, 1)|)
  }

  /** Every origin has an even or an odd flip count. */
  lemma CycleOriginsByParity(p: SignedPermutation, m: nat, n: nat)
    requires p.Valid()
    ensures CycleOrigins(p, m, n) ==
            OriginsWithParity(p, m, n, AllStrands(p, m, n), 0) + OriginsWithParity(p, m, n, AllStrands(p, m, n), 1)
    ensures OriginsWithParity(p, m, n, AllStrands(p, m, n), 0) * OriginsWithParity(p, m, n, AllStrands(p, m, n), 1) == {}
  {
  }

  /** `strands` consists of whole cycles. */
  predicate UnionOfOrbits(p: SignedPermutation, m: nat, n: nat, strands: set<Strand>)
    requires p.Valid()
  {
    forall s :: s in strands ==> ValidStrand(p, m, n, s) && Orbit(p, m, n, s) <= strands
  }

  /** A cycle has one origin: among the strands of a cycle only its least one is an origin. */
  lemma OnlyOneOriginPerCycle(p: SignedPermutation, m: nat, n: nat, r: Strand, s: Strand)
    requires p.Valid() && ValidStrand(p, m, n, r) && ValidStrand(p, m, n, s)
    requires IsCycleOrigin(p, m, n, r) && IsCycleOrigin(p, m, n, s)
    requires s in Orbit(p, m, n, r)
    ensures r == s
  {
    OrbitOfMember(p, m, n, r, s);
    LeastIsUnique(r, s, Orbit(p, m, n, r));
  }

  /** Every strand lies on the cycle of exactly one origin: the cycles partition the strand space. */
  lemma OriginOfStrand(p: SignedPermutation, m: nat, n: nat, s: Strand) returns (r: Strand)
    requires p.Valid() && ValidStrand(p, m, n, s)
    ensures r in CycleOrigins(p, m, n) && s in Orbit(p, m, n, r)
    ensures forall r' :: r' in CycleOrigins(p, m, n) && s in Orbit(p, m, n, r') ==> r' == r
  {
    OrbitIsInSpace(p, m, n, s);
    LeastExists(Orbit(p, m, n, s));
    r :| IsLeast(r, Orbit(p, m, n, s));
    OrbitOfMember(p, m, n, s, r);
    OrbitOfMember(p, m, n, r, s);
    assert IsCycleOrigin(p, m, n, r);
    forall r' | r' in CycleOrigins(p, m, n) && s in Orbit(p, m, n, r') ensures r' == r {
      OrbitOfMember(p, m, n, r', s);
      OnlyOneOriginPerCycle(p, m, n, r, r');
    }
  }

  /** The least of a set of remaining strands whose complement consists of whole cycles
      is the origin of its cycle, and that whole cycle remains. */
  lemma LeastRemainingIsOrigin(p: SignedPermutation, m: nat, n: nat, remaining: set<Strand>, first: Strand)
    requires p.Valid()
    requires remaining <= AllStrands(p, m, n)
    requires UnionOfOrbits(p, m, n, AllStrands(p, m, n) - remaining)
    requires IsLeast(first, remaining)
    ensures ValidStrand(p, m, n, first)
    ensures Orbit(p, m, n, first) <= remaining
    ensures IsCycleOrigin(p, m, n, first)
  {
    var orbit := Orbit(p, m, n, first);
    OrbitIsInSpace(p, m, n, first);
    forall t | t in orbit ensures t in remaining {
      if t !in remaining {
        OrbitOfMember(p, m, n, first, t);
      }
    }
  }

  /** Adding the cycle of an origin to a disjoint set of strands adds that origin, and
      no other, to the origins of either parity. */
  lemma OriginsAfterAddingCycle(p: SignedPermutation, m: nat, n: nat, done: set<Strand>, first: Strand, parity: nat)
    requires p.Valid() && ValidStrand(p, m, n, first) && IsCycleOrigin(p, m, n, first)
    requires done * Orbit(p, m, n, first) == {}
    ensures OriginsWithParity(p, m, n, done + Orbit(p, m, n, first), parity) ==
            OriginsWithParity(p, m, n, done, parity) +
            (if Parity(p, m, n, first) == parity then {first} else {})
    ensures first !in OriginsWithParity(p, m, n, done, parity)
  {
    OrbitIsInSpace(p, m, n, first);
    assert first !in done by {
      assert first in done * Orbit(p, m, n, first) || first !in done;
    }
    forall s | s in Orbit(p, m, n, first) && ValidStrand(p, m, n, s) && IsCycleOrigin(p, m, n, s) ensures s == first {
      OnlyOneOriginPerCycle(p, m, n, first, s);
    }
  }

  /** Removing the cycle of the least remaining strand from a set of remaining strands
      whose complement consists of whole cycles: the removed part stays a union of cycles,
      it grows by exactly one origin (the least strand itself) and by the length of its cycle. */
  lemma RemoveCycle(p: SignedPermutation, m: nat, n: nat, remaining: set<Strand>, first: Strand)
    requires p.Valid()
    requires remaining <= AllStrands(p, m, n)
    requires UnionOfOrbits(p, m, n, AllStrands(p, m, n) - remaining)
    requires IsLeast(first, remaining)
    ensures ValidStrand(p, m, n, first)
    ensures Orbit(p, m, n, first) <= remaining
    ensures AllStrands(p, m, n) - (remaining - Orbit(p, m, n, first)) ==
            (AllStrands(p, m, n) - remaining) + Orbit(p, m, n, first)
    ensures UnionOfOrbits(p, m, n, AllStrands(p, m, n) - (remaining - Orbit(p, m, n, first)))
    ensures |AllStrands(p, m, n) - (remaining - Orbit(p, m, n, first))| ==
            |AllStrands(p, m, n) - remaining| + Period(p, m, n, first)
    ensures forall parity ::
              OriginsWithParity(p, m, n, AllStrands(p, m, n) - (remaining - Orbit(p, m, n, first)), parity) ==
              OriginsWithParity(p, m, n, AllStrands(p, m, n) - remaining, parity) +
              (if Parity(p, m, n, first) == parity then {first} else {})
  {
    var all := AllStrands(p, m, n);
    var done := all - remaining;
    LeastRemainingIsOrigin(p, m, n, remaining, first);
    var orbit := Orbit(p, m, n, first);
    var done' := all - (remaining - orbit);
    assert done' == done + orbit;
    forall s | s in done' ensures ValidStrand(p, m, n, s) && Orbit(p, m, n, s) <= done' {
      if s in orbit {
        OrbitOfMember(p, m, n, first, s);
      }
    }
    OrbitSize(p, m, n, first);
    assert done * orbit == {};
    forall parity ensures OriginsWithParity(p, m, n, done', parity) ==
                          OriginsWithParity(p, m, n, done, parity) +
                          (if Parity(p, m, n, first) == parity then {first} else {})
    {
      OriginsAfterAddingCycle(p, m, n, done, first, parity);
    }
  }

  /** The cycles of the transition, each as the set of its strands. */
  ghost function Cycles(p: SignedPermutation, m: nat, n: nat): (r: set<set<Strand>>)
    requires p.Valid()
  {
    set s | s in AllStrands(p, m, n) :: Orbit(p, m, n, s)
  }

  /** The cycles of a set of origins. */
  ghost function CyclesOf(p: SignedPermutation, m: nat, n: nat, origins: set<Strand>): (r: set<set<Strand>>)
    requires p.Valid() && origins <= CycleOrigins(p, m, n)
  {
    set o | o in origins :: Orbit(p, m, n, o)
  }

  /** Distinct origins have distinct cycles. */
  lemma {:induction false} CyclesOfCard(p: SignedPermutation, m: nat, n: nat, origins: set<Strand>)
    requires p.Valid() && origins <= CycleOrigins(p, m, n)
    ensures |CyclesOf(p, m, n, origins)| == |origins|
    decreases |origins|
  {
    if origins != {} {
      var r :| r in origins;
      var rest := origins - {r};
      CyclesOfCard(p, m, n, rest);
      assert CyclesOf(p, m, n, origins) == CyclesOf(p, m, n, rest) + {Orbit(p, m, n, r)};
      if Orbit(p, m, n, r) in CyclesOf(p, m, n, rest) {
        var r' :| r' in rest && Orbit(p, m, n, r') == Orbit(p, m, n, r);
        OrbitIsInSpace(p, m, n, r');
        OnlyOneOriginPerCycle(p, m, n, r, r');
      }
    }
  }

  /** There are as many cycles as cycle origins, and the two counters together count them. */
  lemma CycleCount(p: SignedPermutation, m: nat, n: nat)
    requires p.Valid()
    ensures |Cycles(p, m, n)| == |CycleOrigins(p, m, n)|
    ensures |CycleOrigins(p, m, n)| == ComponentCounts(p, m, n).0 + ComponentCounts(p, m, n).1
  {
    var origins := CycleOrigins(p, m, n);
    forall c | c in Cycles(p, m, n) ensures c in CyclesOf(p, m, n, origins) {
      var s :| s in AllStrands(p, m, n) && c == Orbit(p, m, n, s);
      var r := OriginOfStrand(p, m, n, s);
      OrbitOfMember(p, m, n, r, s);
    }
    assert Cycles(p, m, n) == CyclesOf(p, m, n, origins);
    CyclesOfCard(p, m, n, origins);
    CycleOriginsByParity(p, m, n);
  }

  /** When the cycle of `Transverse(0)` covers the whole space, its least strand is the only origin. */
  lemma WholeSpaceCycle(p: SignedPermutation, m: nat, n: nat) returns (r: Strand)
    requires p.Valid() && n >= 1
    requires Period(p, m, n, Transverse(0)) == SpaceSize(p, m, n)
    ensures CycleOrigins(p, m, n) == {r}
    ensures ValidStrand(p, m, n, r) && Parity(p, m, n, r) == Parity(p, m, n, Transverse(0))
  {
    var t := Transverse(0);
    OrbitSize(p, m, n, t);
    OrbitIsInSpace(p, m, n, t);
    AllStrandsCard(p, m, n);
    SubsetOfSameSize(Orbit(p, m, n, t), AllStrands(p, m, n));
    r := OriginOfStrand(p, m, n, t);
    OrbitOfMember(p, m, n, r, t);
    forall r' | r' in CycleOrigins(p, m, n) ensures r' == r {
      OnlyOneOriginPerCycle(p, m, n, r, r');
    }
  }

  /** When there is a single origin, the cycle of `Transverse(0)` covers the whole space. */
  lemma SingleOriginCycle(p: SignedPermutation, m: nat, n: nat)
    requires p.Valid() && n >= 1
    requires |CycleOrigins(p, m, n)| == 1
    ensures Period(p, m, n, Transverse(0)) == SpaceSize(p, m, n)
  {
    var t := Transverse(0);
    var r := OriginOfStrand(p, m, n, t);
    forall s | s in AllStrands(p, m, n) ensures s in Orbit(p, m, n, r) {
      var rs := OriginOfStrand(p, m, n, s);
      SingletonMembers(CycleOrigins(p, m, n), r, rs);
    }
    OrbitIsInSpace(p, m, n, r);
    OrbitOfMember(p, m, n, r, t);
    assert Orbit(p, m, n, t) == AllStrands(p, m, n);
    OrbitSize(p, m, n, t);
    AllStrandsCard(p, m, n);
  }

  /** The single-cycle test agrees with the cycle count: the cycle of `Transverse(0)` is the
      whole space exactly when there is one component, and that component is two-sided
      exactly when the flip count along the cycle of `Transverse(0)` is even. */
  lemma SingleCycle(p: SignedPermutation, m: nat, n: nat)
    requires p.Valid() && n >= 1
    ensures Period(p, m, n, Transverse(0)) == SpaceSize(p, m, n) <==>
            ComponentCounts(p, m, n).0 + ComponentCounts(p, m, n).1 == 1
    ensures Period(p, m, n, Transverse(0)) == SpaceSize(p, m, n) ==>
            ComponentCounts(p, m, n) == (if Parity(p, m, n, Transverse(0)) == 0 then (1, 0) else (0, 1))
  {
    CycleOriginsByParity(p, m, n);
    if Period(p, m, n, Transverse(0)) == SpaceSize(p, m, n) {
      var r := WholeSpaceCycle(p, m, n);
      var all := AllStrands(p, m, n);
      if Parity(p, m, n, r) == 0 {
        assert OriginsWithParity(p, m, n, all, 0) == {r};
      } else {
        assert OriginsWithParity(p, m, n, all, 1) == {r};
      }
    } else if |CycleOrigins(p, m, n)| == 1 {
      SingleOriginCycle(p, m, n);
    }
  }
}
