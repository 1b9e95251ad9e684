/** Orbits of the transition rule: the walk from a strand, its return time, the set of
    strands it visits and the number of flips it crosses. */
module Orbits {
  import opened Strands
  import opened SignedPermutations
  import opened Collections
  import opened Transition

  /** The strand reached from `s` after `steps` transitions. */
  function Iterate(p: SignedPermutation, m: nat, n: nat, s: Strand, steps: nat): (r: Strand)
    requires p.Valid() && ValidStrand(p, m, n, s)
    ensures ValidStrand(p, m, n, r)
  {
    if steps == 0 then s else NextMajorStrand(p, m, n, Iterate(p, m, n, s, steps - 1)).0
  }

  /** Number of flipped strands crossed in the first `steps` transitions from `s`. */
  function FlipCount(p: SignedPermutation, m: nat, n: nat, s: Strand, steps: nat): (r: nat)
    requires p.Valid() && ValidStrand(p, m, n, s)
    ensures r <= steps
  {
    if steps == 0 then 0
    else FlipCount(p, m, n, s, steps - 1) + FlipOf(p, Iterate(p, m, n, s, steps - 1))
  }

  /** Walking `a` steps and then `b` steps is walking `a + b` steps. */
  lemma {:induction false} IterateAdd(p: SignedPermutation, m: nat, n: nat, s: Strand, a: nat, b: nat)
    requires p.Valid() && ValidStrand(p, m, n, s)
    ensures Iterate(p, m, n, s, a + b) == Iterate(p, m, n, Iterate(p, m, n, s, a), b)
    decreases b
  {
    if b > 0 {
      IterateAdd(p, m, n, s, a, b - 1);
    }
  }

  /** The flips of `a + b` steps are those of the first `a` plus those of the next `b`. */
  lemma {:induction false} FlipCountAdd(p: SignedPermutation, m: nat, n: nat, s: Strand, a: nat, b: nat)
    requires p.Valid() && ValidStrand(p, m, n, s)
    ensures FlipCount(p, m, n, s, a + b) ==
            FlipCount(p, m, n, s, a) + FlipCount(p, m, n, Iterate(p, m, n, s, a), b)
    decreases b
  {
    if b > 0 {
      var c := b - 1;
      var t := Iterate(p, m, n, s, a);
      FlipCountAdd(p, m, n, s, a, c);
      IterateAdd(p, m, n, s, a, c);
      assert FlipCount(p, m, n, s, a + b) ==
             FlipCount(p, m, n, s, a + c) + FlipOf(p, Iterate(p, m, n, t, c));
      assert FlipCount(p, m, n, t, b) == FlipCount(p, m, n, t, c) + FlipOf(p, Iterate(p, m, n, t, c));
    }
  }

  /** Two walks from `s` that meet after `a <= b` steps met already after `0` and
      `b - a` steps: the transition rule is injective. */
  lemma {:induction false} IterateCancel(p: SignedPermutation, m: nat, n: nat, s: Strand, a: nat, b: nat)
    requires p.Valid() && ValidStrand(p, m, n, s)
    requires a <= b && Iterate(p, m, n, s, a) == Iterate(p, m, n, s, b)
    ensures Iterate(p, m, n, s, b - a) == s
    decreases a
  {
    if a > 0 {
      NextInjective(p, m, n, Iterate(p, m, n, s, a - 1), Iterate(p, m, n, s, b - 1));
      IterateCancel(p, m, n, s, a - 1, b - 1);
    }
  }

  /** The walk from every strand comes back to it within `L*m + n` steps. */
  lemma ReturnExists(p: SignedPermutation, m: nat, n: nat, s: Strand)
    requires p.Valid() && ValidStrand(p, m, n, s)
    ensures exists r :: 1 <= r <= SpaceSize(p, m, n) && Iterate(p, m, n, s, r) == s
  {
    var size := SpaceSize(p, m, n);
    var positions := seq(size + 1, i requires 0 <= i => Position(p, m, n, Iterate(p, m, n, s, i)));
    Pigeonhole(positions, Below(size));
    var i, j :| 0 <= i < j < |positions| && positions[i] == positions[j];
    PositionInjective(p, m, n, Iterate(p, m, n, s, i), Iterate(p, m, n, s, j));
    IterateCancel(p, m, n, s, i, j);
  }

  /** The first return time of the walk from `s` that is at least `from`. */
  function FirstReturn(p: SignedPermutation, m: nat, n: nat, s: Strand, from: nat): (r: nat)
    requires p.Valid() && ValidStrand(p, m, n, s)
    requires exists r :: from <= r <= SpaceSize(p, m, n) && Iterate(p, m, n, s, r) == s
    ensures from <= r <= SpaceSize(p, m, n) && Iterate(p, m, n, s, r) == s
    ensures forall q :: from <= q < r ==> Iterate(p, m, n, s, q) != s
    decreases SpaceSize(p, m, n) - from
  {
    if Iterate(p, m, n, s, from) == s then from else FirstReturn(p, m, n, s, from + 1)
  }

  /** The length of the cycle through `s`: the least positive number of steps that leads back to `s`. */
  function Period(p: SignedPermutation, m: nat, n: nat, s: Strand): (r: nat)
    requires p.Valid() && ValidStrand(p, m, n, s)
    ensures 1 <= r <= SpaceSize(p, m, n) && Iterate(p, m, n, s, r) == s
    ensures forall q :: 1 <= q < r ==> Iterate(p, m, n, s, q) != s
  {
    ReturnExists(p, m, n, s);
    FirstReturn(p, m, n, s, 1)
  }

  /** The first `steps` strands of the walk from `s`, in order. */
  function Walk(p: SignedPermutation, m: nat, n: nat, s: Strand, steps: nat): (w: seq<Strand>)
    requires p.Valid() && ValidStrand(p, m, n, s)
    ensures |w| == steps
    ensures forall i :: 0 <= i < steps ==> w[i] == Iterate(p, m, n, s, i)
  {
    if steps == 0 then [] else Walk(p, m, n, s, steps - 1) + [Iterate(p, m, n, s, steps - 1)]
  }

  /** The strands visited in the first `steps` steps from `s`. */
  function Visited(p: SignedPermutation, m: nat, n: nat, s: Strand, steps: nat): (r: set<Strand>)
    requires p.Valid() && ValidStrand(p, m, n, s)
  {
    Elements(Walk(p, m, n, s, steps))
  }

  /** The orbit of `s`: the strands of its cycle. */
  function Orbit(p: SignedPermutation, m: nat, n: nat, s: Strand): (r: set<Strand>)
    requires p.Valid() && ValidStrand(p, m, n, s)
  {
    Visited(p, m, n, s, Period(p, m, n, s))
  }

  /** Parity of the number of flips along the cycle through `s`: 0 for a two-sided
      (orientable) component, 1 for a one-sided one. */
  function Parity(p: SignedPermutation, m: nat, n: nat, s: Strand): (r: nat)
    requires p.Valid() && ValidStrand(p, m, n, s)
    ensures r == 0 || r == 1
  {
    FlipCount(p, m, n, s, Period(p, m, n, s)) % 2
  }

  /** One more step adds the strand it reaches. */
  lemma VisitedStep(p: SignedPermutation, m: nat, n: nat, s: Strand, steps: nat)
    requires p.Valid() && ValidStrand(p, m, n, s)
    ensures Visited(p, m, n, s, steps + 1) == Visited(p, m, n, s, steps) + {Iterate(p, m, n, s, steps)}
  {
    assert Walk(p, m, n, s, steps + 1) == Walk(p, m, n, s, steps) + [Iterate(p, m, n, s, steps)];
  }

  /** Every strand of the orbit is a valid strand. */
  lemma OrbitIsInSpace(p: SignedPermutation, m: nat, n: nat, s: Strand)
    requires p.Valid() && ValidStrand(p, m, n, s)
    ensures s in Orbit(p, m, n, s)
    ensures Orbit(p, m, n, s) <= AllStrands(p, m, n)
  {
    assert Walk(p, m, n, s, Period(p, m, n, s))[0] == s;
  }

  /** Every strand of the orbit of `s` is reached from `s` in fewer steps than its period. */
  lemma OrbitMemberIndex(p: SignedPermutation, m: nat, n: nat, s: Strand, x: Strand) returns (i: nat)
    requires p.Valid() && ValidStrand(p, m, n, s)
    requires x in Orbit(p, m, n, s)
    ensures i < Period(p, m, n, s) && x == Iterate(p, m, n, s, i)
  {
    var walk := Walk(p, m, n, s, Period(p, m, n, s));
    assert x in walk;
    i :| 0 <= i < |walk| && walk[i] == x;
  }

  /** However far the walk from `s` goes, it stays in the orbit of `s`. */
  lemma {:induction false} IterateStaysInOrbit(p: SignedPermutation, m: nat, n: nat, s: Strand, steps: nat)
    requires p.Valid() && ValidStrand(p, m, n, s)
    ensures Iterate(p, m, n, s, steps) in Orbit(p, m, n, s)
    decreases steps
  {
    var period := Period(p, m, n, s);
    if steps < period {
      assert Walk(p, m, n, s, period)[steps] == Iterate(p, m, n, s, steps);
    } else {
      IterateAdd(p, m, n, s, period, steps - period);
      IterateStaysInOrbit(p, m, n, s, steps - period);
    }
  }

  /** The strands of one turn round a cycle are pairwise different, so an orbit has as
      many strands as its cycle has steps. */
  lemma OrbitSize(p: SignedPermutation, m: nat, n: nat, s: Strand)
    requires p.Valid() && ValidStrand(p, m, n, s)
    ensures |Orbit(p, m, n, s)| == Period(p, m, n, s)
  {
    var period := Period(p, m, n, s);
    var walk := Walk(p, m, n, s, period);
    forall i, j | 0 <= i < j < period ensures walk[i] != walk[j] {
      if walk[i] == walk[j] {
        IterateCancel(p, m, n, s, i, j);
      }
    }
    DistinctCard(walk);
  }

  /** A walk that comes back to its start after `q` steps does so from every later
      strand of the walk too. */
  lemma ReturnFromLater(p: SignedPermutation, m: nat, n: nat, s: Strand, a: nat, q: nat)
    requires p.Valid() && ValidStrand(p, m, n, s)
    requires Iterate(p, m, n, s, q) == s
    ensures Iterate(p, m, n, Iterate(p, m, n, s, a), q) == Iterate(p, m, n, s, a)
  {
    IterateAdd(p, m, n, s, a, q);
    IterateAdd(p, m, n, s, q, a);
  }

  /** A walk that is back at `s` after `q` steps is back at `s` after `q - a` steps from the
      strand `a` steps along. */
  lemma ReturnShift(p: SignedPermutation, m: nat, n: nat, s: Strand, a: nat, q: nat)
    requires p.Valid() && ValidStrand(p, m, n, s)
    requires a <= q && Iterate(p, m, n, s, q) == s
    ensures Iterate(p, m, n, Iterate(p, m, n, s, a), q - a) == s
  {
    IterateAdd(p, m, n, s, a, q - a);
  }

  /** Every positive return time is at least the period. */
  lemma PeriodIsLeast(p: SignedPermutation, m: nat, n: nat, s: Strand, q: nat)
    requires p.Valid() && ValidStrand(p, m, n, s)
    requires 1 <= q && Iterate(p, m, n, s, q) == s
    ensures Period(p, m, n, s) <= q
  {
  }

  /** A strand `a` steps along the cycle of `s` lies on a cycle of the same length. */
  lemma PeriodAlongWalk(p: SignedPermutation, m: nat, n: nat, s: Strand, a: nat)
    requires p.Valid() && ValidStrand(p, m, n, s)
    requires a < Period(p, m, n, s)
    ensures Period(p, m, n, Iterate(p, m, n, s, a)) == Period(p, m, n, s)
  {
    var period := Period(p, m, n, s);
    var t := Iterate(p, m, n, s, a);
    assert Iterate(p, m, n, t, period) == t by {
      ReturnFromLater(p, m, n, s, a, period);
    }
    PeriodIsLeast(p, m, n, t, period);
    var period' := Period(p, m, n, t);
    ReturnShift(p, m, n, s, a, period);
    assert Iterate(p, m, n, s, period') == s by {
      ReturnFromLater(p, m, n, t, period - a, period');
    }
    PeriodIsLeast(p, m, n, s, period');
  }

  /** Started anywhere on the cycle of `s`, the walk has the same length, visits the same
      strands and crosses the same number of flips: a cycle's length and orientability do
      not depend on where its walk starts. */
  lemma OrbitOfMember(p: SignedPermutation, m: nat, n: nat, s: Strand, t: Strand)
    requires p.Valid() && ValidStrand(p, m, n, s)
    requires t in Orbit(p, m, n, s)
    ensures ValidStrand(p, m, n, t)
    ensures Period(p, m, n, t) == Period(p, m, n, s)
    ensures Orbit(p, m, n, t) == Orbit(p, m, n, s)
    ensures FlipCount(p, m, n, t, Period(p, m, n, t)) == FlipCount(p, m, n, s, Period(p, m, n, s))
  {
    var period := Period(p, m, n, s);
    var a :| 0 <= a < period && Walk(p, m, n, s, period)[a] == t;
    assert t == Iterate(p, m, n, s, a);
    PeriodAlongWalk(p, m, n, s, a);
    OrbitAlongWalk(p, m, n, s, a);
    // the flips of a whole turn do not depend on the starting point
    FlipCountAdd(p, m, n, s, a, period);
    FlipCountAdd(p, m, n, s, period, a);
  }

  /** A cycle is the whole strand space exactly when its length is the size of the space. */
  lemma OrbitIsWholeSpace(p: SignedPermutation, m: nat, n: nat, s: Strand)
    requires p.Valid() && ValidStrand(p, m, n, s)
    ensures Period(p, m, n, s) == SpaceSize(p, m, n) <==> Orbit(p, m, n, s) == AllStrands(p, m, n)
  {
    OrbitSize(p, m, n, s);
    OrbitIsInSpace(p, m, n, s);
    AllStrandsCard(p, m, n);
    if Period(p, m, n, s) == SpaceSize(p, m, n) {
      SubsetOfSameSize(Orbit(p, m, n, s), AllStrands(p, m, n));
    }
  }

  /** Walking on from a strand reached along the walk stays in the orbit of the start. */
  lemma IterateAlongWalk(p: SignedPermutation, m: nat, n: nat, s: Strand, a: nat, i: nat)
    requires p.Valid() && ValidStrand(p, m, n, s)
    ensures Iterate(p, m, n, Iterate(p, m, n, s, a), i) in Orbit(p, m, n, s)
  {
    IterateAdd(p, m, n, s, a, i);
    IterateStaysInOrbit(p, m, n, s, a + i);
  }

  /** A strand reached along the walk has the same cycle as the start. */
  lemma OrbitAlongWalk(p: SignedPermutation, m: nat, n: nat, s: Strand, a: nat)
    requires p.Valid() && ValidStrand(p, m, n, s)
    requires a < Period(p, m, n, s)
    ensures Orbit(p, m, n, Iterate(p, m, n, s, a)) == Orbit(p, m, n, s)
  {
    var period := Period(p, m, n, s);
    var t := Iterate(p, m, n, s, a);
    PeriodAlongWalk(p, m, n, s, a);
    forall x | x in Orbit(p, m, n, t) ensures x in Orbit(p, m, n, s) {
      var i := OrbitMemberIndex(p, m, n, t, x);
      IterateAlongWalk(p, m, n, s, a, i);
    }
    OrbitSize(p, m, n, s);
    OrbitSize(p, m, n, t);
    SubsetOfSameSize(Orbit(p, m, n, t), Orbit(p, m, n, s));
  }
}
