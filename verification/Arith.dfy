/** Facts about Euclidean division by a positive number that the clock and ring proofs share. */
module Arith {

  function Min(a: int, b: int): int {
    if a < b then a else b
  }

  /** C's quotient and remainder, which truncate toward zero. */
  function CDiv(a: int, d: int): int
    requires d > 0
  {
    if a >= 0 then a / d else -(-a / d)
  }

  function CRem(a: int, d: int): (r: int)
    requires d > 0
    ensures -d < r < d && a == CDiv(a, d) * d + r && (if a >= 0 then r >= 0 else r <= 0)
  {
    DivMod(a, d);
    DivMod(-a, d);
    Distribute(0, -a / d, d);
    if a >= 0 then a % d else -(-a % d)
  }

  lemma Distribute(a: int, b: int, d: int)
    ensures (a + b) * d == a * d + b * d
    ensures (a - b) * d == a * d - b * d
    ensures d * (a + b) == d * a + d * b
    ensures d * (a - b) == d * a - d * b
  {
  }

  lemma Associate(a: int, b: int, c: int)
    ensures a * (b * c) == (a * b) * c
  {
  }

  lemma MulMonotone(a: int, b: int, d: int)
    requires a <= b && 0 <= d
    ensures a * d <= b * d
  {
  }

  lemma DivMod(a: int, d: int)
    requires d > 0
    ensures a == a / d * d + a % d && 0 <= a % d < d
    ensures a >= 0 ==> a / d >= 0
  {
  }

  /** Quotient and remainder are determined by the division equation. */
  lemma DivModUnique(a: int, d: int, q: int, r: int)
    requires d > 0 && a == q * d + r && 0 <= r < d
    ensures a / d == q && a % d == r
  {
    var q', r' := a / d, a % d;
    assert a == q' * d + r';
    if q < q' {
      MulMonotone(q + 1, q', d);
    } else if q' < q {
      MulMonotone(q' + 1, q, d);
    }
  }

  lemma AddMultiple(a: int, d: int, k: int)
    requires d > 0
    ensures (a + k * d) / d == a / d + k
    ensures (a + k * d) % d == a % d
  {
    assert a == (a / d) * d + a % d;
    DivModUnique(a + k * d, d, a / d + k, a % d);
  }

  /** Quotient and remainder of a successor. */
  lemma Succ(a: int, d: int)
    requires d > 0
    ensures a % d < d - 1 ==> (a + 1) / d == a / d && (a + 1) % d == a % d + 1
    ensures a % d == d - 1 ==> (a + 1) / d == a / d + 1 && (a + 1) % d == 0
  {
    assert a == (a / d) * d + a % d;
    if a % d < d - 1 {
      DivModUnique(a + 1, d, a / d, a % d + 1);
    } else {
      DivModUnique(a + 1, d, a / d + 1, 0);
    }
  }

  /** Reducing first modulo a multiple of d loses nothing modulo d. */
  lemma ModOfMod(a: int, m: int, d: int)
    requires d > 0 && m > 0 && m % d == 0
    ensures (a % m) % d == a % d
  {
    var c := m / d;
    assert m == c * d;
    calc {
      a % m;
      a - (a / m) * m;
      a + (-(a / m) * c) * d;
    }
    AddMultiple(a, d, -(a / m) * c);
  }

  lemma ModAdd(a: int, b: int, d: int)
    requires d > 0
    ensures (a % d + b) % d == (a + b) % d
  {
    assert a % d + b == a + b + (-(a / d)) * d;
    AddMultiple(a + b, d, -(a / d));
  }

  /** Two numbers less than d apart with the same remainder are equal. */
  lemma CloseResidues(a: int, b: int, d: int)
    requires d > 0 && a % d == b % d && -d < a - b < d
    ensures a == b
  {
    var k := a / d - b / d;
    assert a - b == k * d;
    if k >= 1 {
      MulMonotone(1, k, d);
    } else if k <= -1 {
      MulMonotone(k, -1, d);
    }
  }
}
