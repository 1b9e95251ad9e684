/** Small worked instances of the walks with one copy of each permutation strand and one
    transverse strand (`m = n = 1`), over the two permutations of two elements. */
module Examples {
  import opened Errors
  import opened Strands
  import opened SignedPermutations
  import opened Collections
  import opened Transition
  import opened Orbits
  import opened Components

  /** With the identity on two elements the walk from `Transverse(0)` passes both
      permutation strands and returns after three steps; flipping the first position makes
      the single component one-sided. */
  lemma IdentityWalk(flips: set<nat>)
    requires flips == {} || flips == {0}
    ensures SignedPermutation([0, 1], flips).Valid()
    ensures Period(SignedPermutation([0, 1], flips), 1, 1, Transverse(0)) == 3
    ensures Parity(SignedPermutation([0, 1], flips), 1, 1, Transverse(0)) == (if flips == {} then 0 else 1)
  {
    var p := SignedPermutation([0, 1], flips);
    var t := Transverse(0);
    assert Iterate(p, 1, 1, t, 1) == PermutationDirection(0, 0);
    assert Iterate(p, 1, 1, t, 2) == PermutationDirection(1, 0);
    assert Iterate(p, 1, 1, t, 3) == t;
    assert FlipCount(p, 1, 1, t, 1) == 0;
    assert FlipCount(p, 1, 1, t, 2) == (if 0 in flips then 1 else 0);
    assert FlipCount(p, 1, 1, t, 3) == (if 0 in flips then 1 else 0);
  }

  /** With the swap of two elements the walk from `Transverse(0)` returns after two steps,
      and the second permutation strand is a cycle of its own. */
  lemma SwapWalk()
    ensures SignedPermutation([1, 0], {}).Valid()
    ensures Period(SignedPermutation([1, 0], {}), 1, 1, Transverse(0)) == 2
    ensures Period(SignedPermutation([1, 0], {}), 1, 1, PermutationDirection(1, 0)) == 1
  {
    var p := SignedPermutation([1, 0], {});
    var t := Transverse(0);
    assert Iterate(p, 1, 1, t, 1) == PermutationDirection(0, 0);
    assert Iterate(p, 1, 1, t, 2) == t;
    assert Iterate(p, 1, 1, PermutationDirection(1, 0), 1) == PermutationDirection(1, 0);
  }

  /** Construction rejects a repeated entry before it looks at the flips, and rejects an
      out-of-range flip of a valid permutation. */
  method RejectedInputs() returns (repeated: Result<SignedPermutation>, badFlip: Result<SignedPermutation>)
    ensures repeated == Err(InvalidPermutation)
    ensures badFlip == Err(InvalidFlipset)
  {
    assert !IsPermutation([0, 0]) by {
      assert [0, 0][0] == [0, 0][1];
    }
    repeated := New([0, 0], [5]);
    assert IsPermutation([0, 1]) && 5 in [5];
    badFlip := New([0, 1], [5]);
  }

  /** The identity with its first position flipped has a single, one-sided component. */
  method IdentityRun() returns (oneComponent: bool, orientability: nat)
    ensures oneComponent && orientability == 1
  {
    assert IsPermutation([0, 1]);
    var built := New([0, 1], [0]);
    var p := built.value;
    assert IsInverse(p.permutation, [0, 1]);
    assert p.permutation == [0, 1];
    assert Elements([0]) == {0};
    assert p == SignedPermutation([0, 1], {0});
    IdentityWalk({0});
    assert SpaceSize(p, 1, 1) == 3;
    oneComponent, orientability := HasOneComponent(p, 1, 1);
  }

  /** The swap splits the strands into more than one component. */
  method SwapRun() returns (oneComponent: bool, orientability: nat)
    ensures !oneComponent && orientability == 0
  {
    var built := New([1, 0], []);
    var p := built.value;
    assert IsInverse(p.permutation, [1, 0]);
    assert p.permutation == [1, 0];
    assert Elements<nat>([]) == {};
    SwapWalk();
    assert FlipCount(p, 1, 1, Transverse(0), 2) == 0;
    oneComponent, orientability := HasOneComponent(p, 1, 1);
  }
}
