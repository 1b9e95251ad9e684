/** Strands of the surgered multicurve, their total order and their construction from a type tag. */
module Strands {
  import opened Errors

  /** A transverse strand `Transverse(i)`, or copy `copyIndex` of the permutation's strand `permIndex`. */
  datatype Strand =
    | Transverse(index: nat)
    | PermutationDirection(permIndex: nat, copyIndex: nat)

  /** The derived order of the strand enum: every transverse strand comes before every
      permutation strand; within a variant the indices compare lexicographically. */
  predicate Less(a: Strand, b: Strand) {
    match (a, b)
    case (Transverse(i), Transverse(i')) => i < i'
    case (Transverse(_), PermutationDirection(_, _)) => true
    case (PermutationDirection(_, _), Transverse(_)) => false
    case (PermutationDirection(j, k), PermutationDirection(j', k')) => j < j' || (j == j' && k < k')
  }

  predicate LessOrEqual(a: Strand, b: Strand) {
    a == b || Less(a, b)
  }

  /** `least` is in `strands` and no strand of `strands` is smaller. */
  predicate IsLeast(least: Strand, strands: set<Strand>) {
    least in strands && forall s :: s in strands ==> LessOrEqual(least, s)
  }

  /** The strand order is a total order. */
  lemma LessIsStrictTotalOrder(a: Strand, b: Strand, c: Strand)
    ensures !Less(a, a)
    ensures Less(a, b) && Less(b, c) ==> Less(a, c)
    ensures a == b || Less(a, b) || Less(b, a)
    ensures !(Less(a, b) && Less(b, a))
  {
  }

  /** Every non-empty finite set of strands has a least element, so taking the first
      element of an ordered set of strands is always defined. */
  lemma {:induction false} LeastExists(strands: set<Strand>)
    requires strands != {}
    ensures exists least :: IsLeast(least, strands)
    decreases |strands|
  {
    var s :| s in strands;
    if strands != {s} {
      var rest := strands - {s};
      LeastExists(rest);
      var least :| IsLeast(least, rest);
      if LessOrEqual(least, s) {
        assert IsLeast(least, strands);
      } else {
        LessIsStrictTotalOrder(s, least, s);
        assert Less(s, least);
        forall t | t in strands ensures LessOrEqual(s, t) {
          if t != s {
            assert t in rest && LessOrEqual(least, t);
            LessIsStrictTotalOrder(s, least, t);
          }
        }
        assert IsLeast(s, strands);
      }
    } else {
      assert IsLeast(s, strands);
    }
  }

  /** The two least strands of a set are the same strand. */
  lemma LeastIsUnique(a: Strand, b: Strand, strands: set<Strand>)
    requires IsLeast(a, strands) && IsLeast(b, strands)
    ensures a == b
  {
    LessIsStrictTotalOrder(a, b, a);
  }

  /** The type tag a strand is built from: 't' for transverse, 'p' for permutation strands. */
  function Tag(s: Strand): (r: char) {
    if s.Transverse? then 't' else 'p'
  }

  /** The first index passed when building `s` from its tag. */
  function FirstIndex(s: Strand): (r: nat) {
    match s
    case Transverse(i) => i
    case PermutationDirection(j, _) => j
  }

  /** The second index passed when building `s` from its tag (0, the default, for transverse strands). */
  function SecondIndex(s: Strand): (r: nat) {
    match s
    case Transverse(_) => 0
    case PermutationDirection(_, k) => k
  }

  /** Builds a strand from a type tag: 't' gives `Transverse(m)` and ignores `n`,
      'p' gives `PermutationDirection(m, n)`, any other tag is an error. */
  function NewStrand(typeOfStrand: char, m: nat, n: nat): (r: Result<Strand>)
    ensures r.Ok? <==> typeOfStrand == 't' || typeOfStrand == 'p'
    ensures r.Err? ==> r.error == InvalidStrandType
    ensures r.Ok? ==> Tag(r.value) == typeOfStrand && FirstIndex(r.value) == m
    ensures r.Ok? && typeOfStrand == 'p' ==> SecondIndex(r.value) == n
  {
    match typeOfStrand
    case 't' => Ok(Transverse(m))
    case 'p' => Ok(PermutationDirection(m, n))
    case _ => Err(InvalidStrandType)
  }

  /** Every strand is built back from its tag and its indices, and a tag and indices
      build at most one strand. */
  lemma NewStrandRoundTrip(s: Strand, typeOfStrand: char, m: nat, n: nat)
    ensures NewStrand(Tag(s), FirstIndex(s), SecondIndex(s)) == Ok(s)
    ensures NewStrand(typeOfStrand, m, n) == Ok(s) ==>
              typeOfStrand == Tag(s) && m == FirstIndex(s) && (s.PermutationDirection? ==> n == SecondIndex(s))
  {
  }
}
