/** The strand transition rule of the surgery of `m` parallel copies of a signed
    permutation with `n` transverse strands, and the proof that it permutes the strands. */
module Transition {
  import opened Strands
  import opened SignedPermutations
  import opened Collections
  import opened Arithmetic

  /** `s` is one of the `L*m + n` strands for copy count `m` and transverse count `n`. */
  predicate ValidStrand(p: SignedPermutation, m: nat, n: nat, s: Strand) {
    match s
    case Transverse(i) => i < n
    case PermutationDirection(j, k) => j < |p.permutation| && k < m
  }

  /** Number of strands: `L*m` permutation strands and `n` transverse strands. */
  function SpaceSize(p: SignedPermutation, m: nat, n: nat): (r: nat) {
    |p.permutation| * m + n
  }

  /** The strand space, as `count_components_with_orientability` builds it: the
      transverse strands, then every copy of every permutation strand. */
  function AllStrands(p: SignedPermutation, m: nat, n: nat): (r: set<Strand>)
    ensures forall s :: s in r <==> ValidStrand(p, m, n, s)
  {
    (set i | 0 <= i < n :: Transverse(i)) +
    (set j, k | 0 <= j < |p.permutation| && 0 <= k < m :: PermutationDirection(j, k))
  }

  /** Position of a strand on a line of `SpaceSize` slots: copy `k` of permutation strand
      `j` at `m*j + k`, then the transverse strands in decreasing order of index. */
  function Position(p: SignedPermutation, m: nat, n: nat, s: Strand): (c: nat)
    requires ValidStrand(p, m, n, s)
    ensures c < SpaceSize(p, m, n)
    ensures s.PermutationDirection? <==> c < |p.permutation| * m
  {
    match s
    case Transverse(i) => |p.permutation| * m + n - 1 - i
    case PermutationDirection(j, k) => RowCopyBelow(m, j, k, |p.permutation|); m * j + k
  }

  /** Different strands have different positions. */
  lemma PositionInjective(p: SignedPermutation, m: nat, n: nat, s: Strand, t: Strand)
    requires ValidStrand(p, m, n, s) && ValidStrand(p, m, n, t)
    requires Position(p, m, n, s) == Position(p, m, n, t)
    ensures s == t
  {
    if s.PermutationDirection? && t.PermutationDirection? {
      RowCopyUnique(m, s.permIndex, s.copyIndex, t.permIndex, t.copyIndex);
    }
  }

  /** The strand at position `c`. */
  function StrandAt(p: SignedPermutation, m: nat, n: nat, c: nat): (s: Strand)
    requires c < SpaceSize(p, m, n)
    ensures ValidStrand(p, m, n, s) && Position(p, m, n, s) == c
  {
    var block := |p.permutation| * m;
    if c < block then
      PositiveFactor(|p.permutation|, m);
      RowBelow(c, m, |p.permutation|);
      PermutationDirection(c / m, c % m)
    else
      Transverse(block + n - 1 - c)
  }

  /** There are exactly `L*m + n` strands. */
  lemma AllStrandsCard(p: SignedPermutation, m: nat, n: nat)
    ensures |AllStrands(p, m, n)| == SpaceSize(p, m, n)
  {
    var size := SpaceSize(p, m, n);
    var line := seq(size, c requires 0 <= c < size => StrandAt(p, m, n, c));
    forall i, j | 0 <= i < j < |line| ensures line[i] != line[j] {
      assert Position(p, m, n, line[i]) == i && Position(p, m, n, line[j]) == j;
    }
    DistinctCard(line);
    forall s | s in AllStrands(p, m, n) ensures s in Elements(line) {
      var c := Position(p, m, n, s);
      PositionInjective(p, m, n, s, line[c]);
    }
    assert Elements(line) == AllStrands(p, m, n);
  }

  /** Where a strand lands after passing through the permutation, before the shift by
      `n`: copy `k` of strand `j` enters copy `k` (or `m-k-1` when `j` is flipped) of
      strand `permutation[j]`; a transverse strand keeps its position. */
  function CrossedPosition(p: SignedPermutation, m: nat, n: nat, s: Strand): (c: nat)
    requires p.Valid() && ValidStrand(p, m, n, s)
    ensures c < SpaceSize(p, m, n)
    ensures s.PermutationDirection? <==> c < |p.permutation| * m
  {
    match s
    case Transverse(_) => Position(p, m, n, s)
    case PermutationDirection(j, k) =>
      var k' := if j in p.flipSet then m - k - 1 else k;
      RowCopyBelow(m, p.permutation[j], k', |p.permutation|);
      m * p.permutation[j] + k'
  }

  /** Different strands cross to different positions (the permutation is a bijection
      and reversing the copy order is too). */
  lemma CrossedPositionInjective(p: SignedPermutation, m: nat, n: nat, s: Strand, t: Strand)
    requires p.Valid() && ValidStrand(p, m, n, s) && ValidStrand(p, m, n, t)
    requires CrossedPosition(p, m, n, s) == CrossedPosition(p, m, n, t)
    ensures s == t
  {
    match (s, t)
    case (PermutationDirection(j, k), PermutationDirection(j', k')) =>
      var c := if j in p.flipSet then m - k - 1 else k;
      var c' := if j' in p.flipSet then m - k' - 1 else k';
      RowCopyUnique(m, p.permutation[j], c, p.permutation[j'], c');
    case (Transverse(_), Transverse(_)) =>
      PositionInjective(p, m, n, s, t);
    case _ =>
  }

  /** The flip flag of a step from `s`: 1 for a permutation strand whose index is flipped,
      0 otherwise. */
  function FlipOf(p: SignedPermutation, s: Strand): nat {
    if s.PermutationDirection? && s.permIndex in p.flipSet then 1 else 0
  }

  /** The successor of a strand and whether the step crossed a flipped strand (1) or not (0). */
  function NextMajorStrand(p: SignedPermutation, m: nat, n: nat, s: Strand): (r: (Strand, nat))
    requires p.Valid() && ValidStrand(p, m, n, s)
    ensures ValidStrand(p, m, n, r.0)
    ensures r.1 == FlipOf(p, s)
  {
    match s
    case PermutationDirection(permIndex, copyIndex) => NextOfPermutationStrand(p, m, n, permIndex, copyIndex)
    case Transverse(index) => (NextOfTransverseStrand(p, m, n, index), 0)
  }

  /** Copy `copyIndex` of permutation strand `permIndex` runs through the permutation (on
      the reversed copy when `permIndex` is flipped), then `n` slots further: onto another
      permutation strand, or out into the transverse region. */
  function NextOfPermutationStrand(p: SignedPermutation, m: nat, n: nat, permIndex: nat, copyIndex: nat): (r: (Strand, nat))
    requires p.Valid() && permIndex < |p.permutation| && copyIndex < m
    ensures ValidStrand(p, m, n, r.0)
    ensures r.1 == (if permIndex in p.flipSet then 1 else 0)
  {
    var length := |p.permutation|;
    var flipped := permIndex in p.flipSet;
    var copyIndex' := if flipped then m - copyIndex - 1 else copyIndex;
    var permIndex' := p.permutation[permIndex];
    RowCopyBelow(m, permIndex', copyIndex', length);
    var absoluteIndex := m * permIndex' + copyIndex';
    var flip := if flipped then 1 else 0;
    if absoluteIndex + n < length * m then
      var absoluteIndex' := absoluteIndex + n;
      RowBelow(absoluteIndex', m, length);
      (PermutationDirection(absoluteIndex' / m, absoluteIndex' % m), flip)
    else
      (Transverse(length * m - absoluteIndex - 1), flip)
  }

  /** Transverse strand `index` moves `L*m` transverse slots on, or, when that leaves the
      transverse region, enters the permutation strands counted back from position `n-1`.
      Without permutation strands (`L*m == 0`) every transverse strand is fixed. */
  function NextOfTransverseStrand(p: SignedPermutation, m: nat, n: nat, index: nat): (r: Strand)
    requires index < n
    ensures ValidStrand(p, m, n, r)
    ensures |p.permutation| * m == 0 ==> r == Transverse(index)
  {
    var length := |p.permutation|;
    if index + length * m < n then
      Transverse(index + length * m)
    else
      var absoluteIndex := n - index - 1;
      PositiveFactor(length, m);
      RowBelow(absoluteIndex, m, length);
      PermutationDirection(absoluteIndex / m, absoluteIndex % m)
  }

  /** One step moves the crossed position `n` slots further round the ring of all
      `L*m + n` positions: permutation strands land on positions `[n, L*m + n)`,
      transverse strands on positions `[0, n)`. */
  lemma NextRotatesPosition(p: SignedPermutation, m: nat, n: nat, s: Strand)
    requires p.Valid() && ValidStrand(p, m, n, s)
    ensures Position(p, m, n, NextMajorStrand(p, m, n, s).0) ==
            (CrossedPosition(p, m, n, s) + n) % SpaceSize(p, m, n)
  {
    var c := CrossedPosition(p, m, n, s);
    var size := SpaceSize(p, m, n);
    if c + n < size {
      RotateBelow(c, n, size);
    } else {
      RotateWrap(c, n, size);
    }
  }

  /** The transition rule is injective on the strand space. */
  lemma NextInjective(p: SignedPermutation, m: nat, n: nat, s: Strand, t: Strand)
    requires p.Valid() && ValidStrand(p, m, n, s) && ValidStrand(p, m, n, t)
    requires NextMajorStrand(p, m, n, s).0 == NextMajorStrand(p, m, n, t).0
    ensures s == t
  {
    NextRotatesPosition(p, m, n, s);
    NextRotatesPosition(p, m, n, t);
    var size := SpaceSize(p, m, n);
    var c, d := CrossedPosition(p, m, n, s), CrossedPosition(p, m, n, t);
    if c + n < size { RotateBelow(c, n, size); } else { RotateWrap(c, n, size); }
    if d + n < size { RotateBelow(d, n, size); } else { RotateWrap(d, n, size); }
    CrossedPositionInjective(p, m, n, s, t);
  }

  /** Every strand has a predecessor: with injectivity, the transition rule is a
      bijection of the strand space. */
  lemma NextSurjective(p: SignedPermutation, m: nat, n: nat, t: Strand)
    requires p.Valid() && ValidStrand(p, m, n, t)
    ensures exists s :: ValidStrand(p, m, n, s) && NextMajorStrand(p, m, n, s).0 == t
  {
    var size := SpaceSize(p, m, n);
    var images := seq(size, c requires 0 <= c < size => NextMajorStrand(p, m, n, StrandAt(p, m, n, c)).0);
    forall i, j | 0 <= i < j < |images| ensures images[i] != images[j] {
      if images[i] == images[j] {
        NextInjective(p, m, n, StrandAt(p, m, n, i), StrandAt(p, m, n, j));
      }
    }
    DistinctCard(images);
    AllStrandsCard(p, m, n);
    assert Elements(images) <= AllStrands(p, m, n);
    SubsetOfSameSize(Elements(images), AllStrands(p, m, n));
    assert t in Elements(images);
    var c :| 0 <= c < size && images[c] == t;
    assert NextMajorStrand(p, m, n, StrandAt(p, m, n, c)).0 == t;
  }
}
