/** Signed permutations: a permutation of {0, ..., L-1} together with a set of flipped indices. */
module SignedPermutations {
  import opened Errors
  import opened Collections

  /** The stored form: `permutation` is the vector the constructor fills in (the inverse
      of the sequence it is given) and `flipSet` the flipped indices. */
  datatype SignedPermutation = SignedPermutation(permutation: seq<nat>, flipSet: set<nat>)
  {
    /** What the constructor guarantees of every value it returns. */
    predicate Valid() {
      IsPermutation(permutation) && forall f :: f in flipSet ==> f < |permutation|
    }
  }

  /** `s` is a bijection of {0, ..., |s|-1}: every entry is in range and none repeats. */
  predicate IsPermutation(s: seq<nat>) {
    (forall i :: 0 <= i < |s| ==> s[i] < |s|) && Distinct(s)
  }

  /** `inverse` undoes `s`: it maps `s[i]` back to `i`. */
  predicate IsInverse(inverse: seq<nat>, s: seq<nat>) {
    |inverse| == |s| && forall i :: 0 <= i < |s| ==> s[i] < |inverse| && inverse[s[i]] == i
  }

  /** Every value below the length of a permutation is one of its entries. */
  lemma PermutationIsOnto(s: seq<nat>)
    requires IsPermutation(s)
    ensures forall v :: 0 <= v < |s| ==> v in s
  {
    DistinctCard(s);
    assert Elements(s) <= Below(|s|);
    SubsetOfSameSize(Elements(s), Below(|s|));
    forall v | 0 <= v < |s| ensures v in s {
      assert v in Below(|s|);
    }
  }

  /** Validates `permutation` and `flips` and builds the signed permutation.
      The permutation is checked completely before any flip is looked at. */
  method New(permutation: seq<nat>, flips: seq<nat>) returns (r: Result<SignedPermutation>)
    ensures r == Err(InvalidPermutation) <==> !IsPermutation(permutation)
    ensures r == Err(InvalidFlipset) <==>
              IsPermutation(permutation) && exists f :: f in flips && f >= |permutation|
    ensures r.Ok? <==> IsPermutation(permutation) && forall f :: f in flips ==> f < |permutation|
    ensures r.Ok? ==> r.value.Valid()
    ensures r.Ok? ==> IsInverse(r.value.permutation, permutation)
    ensures r.Ok? ==> r.value.flipSet == Elements(flips)
  {
    var length := |permutation|;
    // `length` marks a slot that no entry has claimed yet
    var permVector := new nat[length](_ => length);
    var index := 0;
    while index < length
      invariant 0 <= index <= length
      invariant forall i :: 0 <= i < index ==> permutation[i] < length
      invariant forall i, j :: 0 <= i < j < index ==> permutation[i] != permutation[j]
      invariant forall i :: 0 <= i < index ==> permVector[permutation[i]] == i
      invariant forall v :: 0 <= v < length && v !in permutation[..index] ==> permVector[v] == length
    {
      var value := permutation[index];
      if value >= length {
        return Err(InvalidPermutation);
      }
      if permVector[value] != length {
        assert value in permutation[..index];
        return Err(InvalidPermutation);
      }
      permVector[value] := index;
      index := index + 1;
    }
    assert permutation[..index] == permutation;
    PermutationIsOnto(permutation);
    var flipSet: set<nat> := {};
    var position := 0;
    while position < |flips|
      invariant 0 <= position <= |flips|
      invariant flipSet == Elements(flips[..position])
      invariant forall f :: f in flipSet ==> f < length
    {
      var value := flips[position];
      if value >= length {
        assert value in flips;
        return Err(InvalidFlipset);
      }
      flipSet := flipSet + {value};
      assert flips[..position + 1] == flips[..position] + [value];
      position := position + 1;
    }
    assert flips[..position] == flips;
    forall v | 0 <= v < length ensures permVector[v] < length && permutation[permVector[v]] == v {
      assert v in permutation;
      var i :| 0 <= i < length && permutation[i] == v;
    }
    r := Ok(SignedPermutation(permVector[..], flipSet));
  }

  /** Evaluates the signed permutation at `input`: its image and 1 when `input` is flipped, 0 otherwise. */
  function Call(sp: SignedPermutation, input: nat): (r: Result<(nat, nat)>)
    ensures r.Err? <==> input >= |sp.permutation|
    ensures r.Err? ==> r.error == InvalidPermutation
    ensures r.Ok? ==> r.value.0 == sp.permutation[input]
    ensures r.Ok? ==> r.value.1 == (if input in sp.flipSet then 1 else 0)
  {
    if input >= |sp.permutation| then Err(InvalidPermutation)
    else if input in sp.flipSet then Ok((sp.permutation[input], 1))
    else Ok((sp.permutation[input], 0))
  }

  /** Evaluating the constructed value at the `i`-th entry of the sequence it was built
      from gives back `i`, with the flip bit of that entry. */
  lemma CallUndoesConstruction(sp: SignedPermutation, permutation: seq<nat>, flips: seq<nat>, i: nat)
    requires IsInverse(sp.permutation, permutation) && sp.flipSet == Elements(flips)
    requires i < |permutation|
    ensures Call(sp, permutation[i]) == Ok((i, if permutation[i] in flips then 1 else 0))
  {
  }

  /** On a valid signed permutation every index is the image of exactly one index. */
  lemma CallIsBijective(sp: SignedPermutation, j: nat)
    requires sp.Valid() && j < |sp.permutation|
    ensures exists i: nat :: i < |sp.permutation| && Call(sp, i) == Ok((j, Call(sp, i).value.1))
    ensures forall i: nat, i': nat ::
              (i < |sp.permutation| && i' < |sp.permutation| &&
               Call(sp, i).value.0 == j && Call(sp, i').value.0 == j) ==> i == i'
  {
    PermutationIsOnto(sp.permutation);
    assert j in sp.permutation;
    var i :| 0 <= i < |sp.permutation| && sp.permutation[i] == j;
    assert Call(sp, i) == Ok((j, Call(sp, i).value.1));
  }
}
