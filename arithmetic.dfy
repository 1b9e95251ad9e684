/** Facts about products, quotients and remainders of natural numbers used by the strand layout. */
module Arithmetic {

  /** Multiplication by a natural number is monotonic. */
  lemma MulMonotonic(m: nat, a: nat, b: nat)
    requires a <= b
    ensures m * a <= m * b
  {
    assert m * b == m * a + m * (b - a);
  }

  /** Copy `k` of row `j` lies inside an `rows` by `m` block. */
  lemma RowCopyBelow(m: nat, j: nat, k: nat, rows: nat)
    requires j < rows && k < m
    ensures m * j + k < rows * m
  {
    MulMonotonic(m, j + 1, rows);
  }

  /** Row and copy are determined by the flattened index `m * j + k`. */
  lemma RowCopyUnique(m: nat, j: nat, k: nat, j': nat, k': nat)
    requires k < m && k' < m
    requires m * j + k == m * j' + k'
    ensures j == j' && k == k'
  {
    if j < j' {
      MulMonotonic(m, j + 1, j');
    } else if j' < j {
      MulMonotonic(m, j' + 1, j);
    }
  }

  /** The row of an index inside an `rows` by `m` block is a valid row. */
  lemma RowBelow(a: nat, m: nat, rows: nat)
    requires m > 0 && a < rows * m
    ensures a / m < rows
  {
    if a / m >= rows {
      MulMonotonic(m, rows, a / m);
    }
  }

  /** A positive product has a positive right factor. */
  lemma PositiveFactor(rows: nat, m: nat)
    requires rows * m > 0
    ensures m > 0
  {
  }

  /** A rotation on a ring of `size` slots that stays below `size` does not wrap. */
  lemma RotateBelow(c: nat, shift: nat, size: nat)
    requires c + shift < size
    ensures (c + shift) % size == c + shift
  {
  }

  /** A rotation that passes `size` once wraps round by subtracting `size`. */
  lemma RotateWrap(c: nat, shift: nat, size: nat)
    requires size <= c + shift < 2 * size
    ensures (c + shift) % size == c + shift - size
  {
  }

  /** Adding to a parity and reducing again gives the parity of the sum. */
  lemma ParityAdd(x: nat, f: nat)
    ensures (x % 2 + f) % 2 == (x + f) % 2
  {
  }
}
