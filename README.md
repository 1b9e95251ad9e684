# counting-components in Dafny

This project models the core of `counting-components`, a Rust library (exposed to
Python) that counts the components of the multicurve obtained by surgery. The surgery
takes `m` parallel copies of a curve described by a signed permutation of `L` strands
and `n` transverse strands. It also proves properties of that model.

The strand space has `L*m + n` strands: `Transverse(i)` for `i < n`, and
`PermutationDirection(j, k)` (copy `k` of permutation strand `j`) for `j < L`, `k < m`.
The transition rule `get_next_major_strand` sends every strand to the next one along
the curve. It also reports whether the step went through a flipped position.

The model covers these parts:

- **Signed permutations** (`signed_permutation.dfy`).
  - Construction with validation. The source stores the *inverse* of the given
    sequence, using the length as an "unfilled" marker.
  - Evaluation.
- **Strands** (`strands.dfy`).
  - The strand enum with its derived order: transverse strands first, then
    lexicographic within a variant.
  - Construction from a `'t'`/`'p'` tag.
- **The transition rule** (`transition.dfy`).
  - Strands are laid on a line: copy `k` of strand `j` at `m*j + k`, then the
    transverse strands in decreasing order.
  - One step moves a strand's *crossed* position (after the permutation, and the copy
    reversal on flipped strands) `n` places round the ring of `L*m + n` positions.
  - It follows that the rule is injective, and by counting, a bijection.
- **Orbits** (`orbits.dfy`).
  - The walk from a strand.
  - Its period: the least return time. It exists because the rule is a bijection on a
    finite space.
  - The set of strands on the cycle.
  - The parity of the flips along the cycle.
- **The cycle decomposition** (`cycles.dfy`).
  - Each cycle has one *origin*: its least strand.
  - The component counts are the numbers of origins with even flip count (two-sided)
    and odd flip count (one-sided).
- **The two orbit walks** (`components.dfy`).
  - `has_one_component` walks the cycle of `Transverse(0)`.
  - `count_components_with_orientability` drains an ordered set of all strands. It pops
    the least strand, walks its cycle, removes what it passes and classifies the cycle.
  - The drain is proved to start every cycle at its origin. Its counters equal the
    component counts above, and the cycle lengths add up to `L*m + n`.
- **The enumerators** (`enumeration.dfy`, with Euclid's gcd in `gcd.dfy`). These list
  every pair `(m, n)` with `k = m + n`, `2 <= k < complexity`, `1 <= n < k` and
  `gcd(k, n) = 1`, once each. One enumerator gives every pair with its counts; the
  other filters those results down to the pairs without one-sided components, as the
  source's chain of iterator filters does.

`examples.dfy` works out small instances: the identity and the swap on two elements,
with `m = n = 1`. `collections.dfy` and `arithmetic.dfy` hold the set and arithmetic
facts the proofs use.

## Model

| member | source | states |
|---|---|---|
| SignedPermutations.New | src/lib.rs:52-78 | Fails with `InvalidPermutation` exactly when the sequence is not a permutation (an entry out of range or repeated), whatever the flips. Fails with `InvalidFlipset` exactly when the permutation is valid but some flip is out of range. Otherwise succeeds with a valid signed permutation whose stored vector is the inverse of the input and whose flip set is the set of given flips. |
| SignedPermutations.PermutationIsOnto | src/lib.rs:57-65 | A valid permutation takes every value below its length, so the inverse vector has no slot left at the "unfilled" marker. |
| SignedPermutations.Call | src/lib.rs:81-90 | Fails with `InvalidPermutation` exactly when the input is out of range. Otherwise returns the stored image and a flip bit that is 1 exactly when the input is flipped. |
| SignedPermutations.CallUndoesConstruction | src/lib.rs:52-90 | Evaluating the constructed value at `permutation[i]` gives back `i`, with the flip bit of `permutation[i]`. |
| SignedPermutations.CallIsBijective | src/lib.rs:81-90 | On a valid signed permutation, evaluation hits every value below the length, and distinct inputs give distinct images. |
| Strands.LessIsStrictTotalOrder | src/lib.rs:113-117 | `Strands.Less` models the derived `Ord` of the strand enum, which `pop_first` uses. The derived order on strands (transverse before permutation strands, indices lexicographic) is irreflexive, transitive, total and asymmetric. |
| Strands.LeastExists | src/lib.rs:113-117 | Every non-empty set of strands has a least element, so taking the first element of the ordered set is always defined. |
| Strands.LeastIsUnique | src/lib.rs:113-117 | A set of strands has only one least element. |
| Strands.NewStrand | src/lib.rs:130-140 | Succeeds exactly for the tags `'t'` and `'p'` and fails with `InvalidStrandType` otherwise. The built strand has that tag and first index `m`, and for `'p'` second index `n`. |
| Strands.NewStrandRoundTrip | src/lib.rs:130-140 | Every strand is rebuilt from its tag and indices, and a successful build determines the tag and the indices it used. |
| Transition.AllStrands | src/lib.rs:235-247 | The initial set holds exactly the valid strands: `Transverse(i)` for `i < n` and `PermutationDirection(j, k)` for `j < L`, `k < m`. |
| Transition.AllStrandsCard | src/lib.rs:235-247 | The strand space has exactly `L*m + n` strands, the expected orbit length. |
| Transition.NextMajorStrand | src/lib.rs:152-199 | The successor of a valid strand is valid (no subtraction underflows, no division by zero is reached). The flip flag is 1 exactly for a permutation strand whose index is flipped. |
| Transition.NextOfPermutationStrand | src/lib.rs:160-182 | For copy `k` of strand `j`, the successor is a valid strand and the flag is 1 exactly when `j` is flipped. |
| Transition.NextOfTransverseStrand | src/lib.rs:183-196 | For `Transverse(i)`, `i < n`, the successor is a valid strand. With no permutation strands (`L*m = 0`) it is `Transverse(i)` itself. |
| Transition.CrossedPosition | src/lib.rs:160-167 | Where a strand lands after the permutation: copy `k` (or `m-k-1` when flipped) of strand `permutation[j]`. It is a position inside the permutation block exactly for permutation strands. |
| Transition.CrossedPositionInjective | src/lib.rs:160-167 | Distinct strands land on distinct crossed positions. |
| Transition.NextRotatesPosition | src/lib.rs:166-196 | The successor's position is the crossed position moved `n` places round the ring of `L*m + n` positions. |
| Transition.NextInjective | src/lib.rs:152-199 | The transition rule is injective on valid strands. |
| Transition.NextSurjective | src/lib.rs:152-199 | Every valid strand is the successor of some valid strand, so the rule is a bijection of the strand space. |
| Orbits.IterateCancel | src/lib.rs:213-218 | Two walks from a strand that meet after `a <= b` steps mean the walk returns to its start after `b - a` steps. |
| Orbits.ReturnExists | src/lib.rs:213-218 | Every walk returns to its starting strand within `L*m + n` steps, so both walking loops terminate. |
| Orbits.Period | src/lib.rs:213-218 | The cycle length is at least 1 and at most `L*m + n`. After that many steps the walk is back at its start, and it is not back after fewer. |
| Orbits.OrbitSize | src/lib.rs:213-218 | A cycle has exactly as many strands as its length. |
| Orbits.OrbitIsInSpace | src/lib.rs:213-218 | A strand lies on its own cycle, and the cycle lies in the strand space. |
| Orbits.OrbitOfMember | src/lib.rs:251-259 | Every strand on a cycle has the same cycle, the same cycle length and the same number of flips along a full turn. |
| Cycles.OnlyOneOriginPerCycle | src/lib.rs:249-259 | Of the strands on one cycle only the least is an origin. |
| Cycles.OriginOfStrand | src/lib.rs:249-266 | Every strand lies on the cycle of exactly one origin: the cycles partition the strand space. |
| Cycles.LeastRemainingIsOrigin | src/lib.rs:250 | If the removed strands form whole cycles, the least remaining strand is the origin of its cycle, and that whole cycle still remains. |
| Cycles.RemoveCycle | src/lib.rs:249-266 | Removing the cycle of the popped strand keeps the removed strands a union of cycles. The removed set grows by the cycle length. Exactly one origin, the popped strand, is added, under its parity. |
| Cycles.CycleOriginsByParity | src/lib.rs:261-265 | Every origin is counted under exactly one parity: two-sided when even, one-sided when odd. |
| Cycles.CycleCount | src/lib.rs:249-267 | The number of cycles equals the number of origins, which equals two-sided plus one-sided components. |
| Cycles.SingleCycle | src/lib.rs:203-268 | The cycle of `Transverse(0)` has length `L*m + n` exactly when there is one component. That component is two-sided exactly when the flip count along that cycle is even. |
| Components.HasOneComponent | src/lib.rs:203-222 | The flag is true exactly when the cycle of `Transverse(0)` has length `L*m + n`, which is exactly when that cycle is the whole strand space. The second result is the parity of the flips along that cycle. |
| Components.PopFirst | src/lib.rs:250 | Takes the least strand of a non-empty ordered set and leaves the others. |
| Components.InitialStrands | src/lib.rs:235-247 | The set built by the nested loops is exactly the strand space. |
| Components.WalkCycle | src/lib.rs:251-259 | Walking from the popped strand back to it removes exactly the rest of its cycle, and the flip sum is the flip count of one full turn. |
| Components.CoveredStep | src/lib.rs:249-259 | After one drain round the removed strands are still whole cycles, and the recorded cycle lengths still add up to the number removed. |
| Components.TalliedStep | src/lib.rs:249-266 | After one drain round the counters still count the origins among the removed strands, by parity. |
| Components.CountComponentsWithOrientability | src/lib.rs:227-268 | The counters equal the numbers of two-sided and one-sided components. Their sum is the number of cycles started, and those starts are exactly the cycle origins. The lengths of the walked cycles add up to `L*m + n`: each strand is removed once. |
| Divisibility.Gcd | src/lib.rs:281 | The gcd is 0 only when both arguments are 0. |
| Divisibility.GcdDivides | src/lib.rs:281 | The gcd divides both arguments. |
| Divisibility.GcdGreatest | src/lib.rs:281 | Every common divisor of the arguments divides the gcd. |
| Enumeration.SelectedPairs | src/lib.rs:276-283 | Every enumerated pair has `m >= 1` and `n >= 1`, and `m` and `n` have no common divisor but 1. |
| Enumeration.CountComponentsUpToComplexity | src/lib.rs:272-288 | The keys are exactly the pairs `(k-n, n)` with `2 <= k < complexity`, `1 <= n < k`, `gcd(k, n) = 1`, each once. Each key carries that pair's two-sided and one-sided component counts. |
| Enumeration.TwoSidedKeysMembers | src/lib.rs:306-307 | When the results' keys are free of repetitions, the filter keeps a result's key exactly when its one-sided count is zero. It keeps nothing that is not a key, and it keeps each key once. |
| Enumeration.TwoSidedMulticurvesUpToComplexity | src/lib.rs:292-310 | The result is the per-pair counts of the enumeration filtered on a one-sided count of zero: exactly the enumerated pairs without one-sided components, each once. |
| Examples.IdentityWalk | src/lib.rs:152-222 | For the identity on two elements with `m = n = 1`, the cycle of `Transverse(0)` has length 3, the whole space. Its flip parity is 0 without flips and 1 with the first position flipped. |
| Examples.SwapWalk | src/lib.rs:152-222 | For the swap on two elements with `m = n = 1`, `Transverse(0)` returns after 2 steps, and `PermutationDirection(1, 0)` is fixed. |
| Examples.RejectedInputs | src/lib.rs:52-72 | `[0, 0]` with an out-of-range flip is rejected as an invalid permutation. `[0, 1]` with flip 5 is rejected as an invalid flip set. |
| Examples.IdentityRun | src/lib.rs:203-222 | The identity built with flips `[0]` has one component, and it is one-sided. |
| Examples.SwapRun | src/lib.rs:203-222 | The swap built without flips has more than one component. |

## Left out

- The Python binding layer is not modelled. This covers the conversion of errors into
  Python exceptions (src/lib.rs:26-38), the class and method attributes, argument
  defaults (`flips = []`, `n = 0`), and module registration (src/lib.rs:316-330).
- The `__repr__` display strings of both classes (src/lib.rs:95-110,
  src/lib.rs:144-148) are presentation only and are not modelled.
- `PyStrand` is modelled as the `Strand` it wraps. Its derived order and equality are
  those of the wrapped strand.
- `HashSet` and `BTreeSet` are modelled as mathematical sets. `pop_first` is modelled
  as taking the least strand under the derived order.
- Machine integers (`usize`) are modelled as unbounded naturals, so overflow of
  `m * L + n` and of the flip sums is not modelled.
- Components.HasOneComponent: requires `n >= 1`. With `n = 0`, `n - index - 1`
  underflows (src/lib.rs:189) and the walk cannot start from `Transverse(0)`.
- Transition.NextMajorStrand: requires a strand of the strand space (`Transverse(i)` with
  `i < n`, or `PermutationDirection(j, k)` with `j < L`, `k < m`), the space the rule is
  defined on. The source still answers some strands outside it: it answers an unflipped
  copy index `k >= m` whenever `m*permutation[j] + k < L*m`, with a permutation strand
  (src/lib.rs:166-175) or a transverse strand (src/lib.rs:176-180). On the rest it underflows or indexes out of bounds: a flipped copy index `k >= m`
  underflows (src/lib.rs:162), `j >= L` indexes out of bounds (src/lib.rs:166), an
  unflipped copy with `m*permutation[j] + k >= L*m` underflows (src/lib.rs:177), and
  `Transverse(i)` with `i >= n` underflows (src/lib.rs:189). The walks only ever pass strands of the space.
- The walks and the count require a valid signed permutation. The only way to build
  one is `SignedPermutation::new`, which `SignedPermutations.New` proves establishes
  validity.
- The enumerators run their pairs in parallel with rayon, and the collected order is
  not promised. The model runs them sequentially, and its contracts state which pairs
  appear (each once) and with what counts, not their order.
- The `gcd` crate's binary gcd (`gcd_binary`) is a foreign library. It is replaced by
  Euclid's algorithm, proved to compute the greatest common divisor, which is the
  value `gcd_binary` returns.
- Components.CountComponentsWithOrientability: the `origins` result (the strand each
  cycle was started from) is a ghost output of the model, not of the source.
