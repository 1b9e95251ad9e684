/** The greatest common divisor used to select coprime pairs, computed by Euclid's algorithm. */
module Divisibility {
  import opened Arithmetic

  /** `d` divides `a` (zero divides only zero). */
  predicate Divides(d: nat, a: nat) {
    if d == 0 then a == 0 else a % d == 0
  }

  /** Euclid's algorithm on natural numbers. */
  function Gcd(a: nat, b: nat): (r: nat)
    ensures r == 0 <==> a == 0 && b == 0
    decreases b
  {
    if b == 0 then a else Gcd(b, a % b)
  }

  /** A product with a common factor that is smaller has the smaller cofactor. */
  lemma MulStrictCancel(d: nat, a: nat, b: nat)
    requires d * a < d * b
    ensures a < b
  {
    if a >= b {
      MulMonotonic(d, b, a);
    }
  }

  /** Quotient and remainder are unique: `d * q + r` with `r < d` has remainder `r`. */
  lemma ModUnique(y: nat, d: nat, q: nat, r: nat)
    requires d > 0 && r < d && y == d * q + r
    ensures y % d == r
  {
    var q', r' := y / d, y % d;
    assert y == d * q' + r';
    assert d * (q + 1) == d * q + d;
    assert d * (q' + 1) == d * q' + d;
    MulStrictCancel(d, q', q + 1);
    MulStrictCancel(d, q, q' + 1);
  }

  /** Adding a multiple of `d` does not change the remainder modulo `d`. */
  lemma ModAddMultiple(x: nat, d: nat, c: nat)
    requires d > 0
    ensures (d * c + x) % d == x % d
  {
    assert x == d * (x / d) + x % d;
    assert d * c + x == d * (c + x / d) + x % d;
    ModUnique(d * c + x, d, c + x / d, x % d);
  }

  /** A common divisor of `b` divides `a` exactly when it divides `a % b`. */
  lemma EuclidStep(d: nat, a: nat, b: nat)
    requires b > 0 && Divides(d, b)
    ensures Divides(d, a) <==> Divides(d, a % b)
  {
    var q, c := a / b, b / d;
    assert d > 0 && b == d * c;
    assert a == d * (c * q) + a % b by {
      assert a == b * q + a % b;
      assert b * q == d * (c * q);
    }
    ModAddMultiple(a % b, d, c * q);
  }

  /** `Gcd(a, b)` divides both `a` and `b`. */
  lemma {:induction false} GcdDivides(a: nat, b: nat)
    ensures Divides(Gcd(a, b), a) && Divides(Gcd(a, b), b)
    decreases b
  {
    if b > 0 {
      GcdDivides(b, a % b);
      EuclidStep(Gcd(a, b), a, b);
    }
  }

  /** Every common divisor of `a` and `b` divides `Gcd(a, b)`. */
  lemma {:induction false} GcdGreatest(a: nat, b: nat, d: nat)
    requires Divides(d, a) && Divides(d, b)
    ensures Divides(d, Gcd(a, b))
    decreases b
  {
    if b > 0 {
      EuclidStep(d, a, b);
      GcdGreatest(b, a % b, d);
    }
  }
}
