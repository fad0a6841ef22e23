/** Remainder facts used to reason about positions on a looping strip. Dafny's `%`
    on `int` is Euclidean, so a remainder by a positive modulus is never negative. */
module ModArith {

  /** Adding one whole modulus does not change a remainder. */
  lemma ModAddOnce(y: int, m: int)
    requires m > 0
    ensures (y + m) % m == y % m
  {
    var q, r := y / m, y % m;
    assert y == q * m + r;
    assert y + m == (q + 1) * m + r;
    ModUnique(y + m, q + 1, r, m);
  }

  /** A quotient/remainder decomposition with the remainder in range is the one `%` computes. */
  lemma ModUnique(a: int, q: int, r: int, m: int)
    requires m > 0
    requires 0 <= r < m
    requires a == q * m + r
    ensures a % m == r
  {
    var q', r' := a / m, a % m;
    assert a == q' * m + r';
    assert (q - q') * m == r' - r by {
      assert q * m - q' * m == (q - q') * m;
    }
    if q > q' {
      AtLeastOneMultiple(q - q', m);
    } else if q < q' {
      AtLeastOneMultiple(q' - q, m);
    }
  }

  /** A positive number of moduli is at least one modulus. */
  lemma AtLeastOneMultiple(d: int, m: int)
    requires d >= 1 && m > 0
    ensures d * m >= m
  {
    assert d * m == (d - 1) * m + m;
    assert (d - 1) * m >= 0;
  }

  /** Adding any whole number of moduli does not change a remainder. */
  lemma {:induction false} ModShift(x: int, q: int, m: int)
    requires m > 0
    ensures (x + q * m) % m == x % m
    decreases if q >= 0 then q else -q
  {
    if q > 0 {
      ModShift(x, q - 1, m);
      ModAddOnce(x + (q - 1) * m, m);
      assert x + q * m == x + (q - 1) * m + m;
    } else if q < 0 {
      ModShift(x, q + 1, m);
      ModAddOnce(x + q * m, m);
      assert x + (q + 1) * m == x + q * m + m;
    }
  }

  /** Reducing the left operand first gives the same remainder of a sum. */
  lemma ModAddLeft(a: int, b: int, m: int)
    requires m > 0
    ensures ((a % m) + b) % m == (a + b) % m
  {
    assert a == (a / m) * m + a % m;
    ModShift((a % m) + b, a / m, m);
    assert (a % m) + b + (a / m) * m == a + b;
  }

  /** Numbers that differ by a multiple of the modulus have equal remainders. */
  lemma ModCongruent(a: int, b: int, m: int)
    requires m > 0
    requires (a - b) % m == 0
    ensures a % m == b % m
  {
    var q := (a - b) / m;
    assert a - b == q * m + 0;
    assert a == b + q * m;
    ModShift(b, q, m);
  }

  /** Numbers with equal remainders differ by a multiple of the modulus. */
  lemma CongruentDifference(a: int, b: int, m: int)
    requires m > 0
    requires a % m == b % m
    ensures (a - b) % m == 0
  {
    assert a == (a / m) * m + a % m;
    assert b == (b / m) * m + b % m;
    assert a - b == 0 + (a / m - b / m) * m;
    ModShift(0, a / m - b / m, m);
  }
}
