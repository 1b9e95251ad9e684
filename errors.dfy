/** Errors reported by the constructors of signed permutations and strands. */
module Errors {

  /** The three error kinds the library reports. */
  datatype PermutationError =
    | InvalidPermutation  // not a permutation of {0, ..., L-1}, or an evaluation index out of range
    | InvalidFlipset      // a flip index outside {0, ..., L-1}
    | InvalidStrandType   // a strand tag other than 't' or 'p'

  /** Outcome of an operation that can fail with a PermutationError. */
  datatype Result<+T> = Ok(value: T) | Err(error: PermutationError)
}
