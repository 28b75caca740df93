/** Facts about integer products and quotients. */
module Arithmetic {
  lemma {:induction false} ProductAtLeast(k: int, d: nat)
    requires k >= 1
    ensures k * d >= d
  {
    if k > 1 {
      ProductAtLeast(k - 1, d);
      assert k * d == (k - 1) * d + d;
    }
  }

  lemma {:induction false} ProductMonotone(a: nat, x: int, y: int)
    requires x <= y
    ensures a * x <= a * y
  {
    if a > 0 {
      ProductMonotone(a - 1, x, y);
      assert a * x == (a - 1) * x + x;
      assert a * y == (a - 1) * y + y;
    }
  }

  lemma QuotientUnique(x: int, d: nat, q: int, r: nat)
    requires d > 0 && x == q * d + r && r < d
    ensures x / d == q && x % d == r
  {
    var q', r' := x / d, x % d;
    assert x == d * q' + r';
    assert (q - q') * d == r' - r;
    assert (q' - q) * d == r - r';
    if q - q' >= 1 {
      ProductAtLeast(q - q', d);
    }
    if q' - q >= 1 {
      ProductAtLeast(q' - q, d);
    }
  }

  lemma Regroup(a: int, b: int, q: int, r: int, s: int)
    ensures a * (b * q + r) + s == q * (a * b) + (a * r + s)
  {
    assert a * (b * q + r) == a * (b * q) + a * r;
    assert a * (b * q) == q * (a * b);
  }

  lemma RemainderBound(a: nat, b: nat, r: nat, s: nat)
    requires r < b && s < a
    ensures 0 <= a * r + s < a * b
  {
    ProductMonotone(a, r, b - 1);
    assert a * (b - 1) == a * b - a;
    ProductMonotone(a, 0, r);
  }

  /** Quotient and remainder of a division in two stages. */
  lemma DivideTwice(x: int, a: nat, b: nat)
    requires a > 0 && b > 0
    ensures a * b > 0 && x / a / b == x / (a * b)
    ensures x % (a * b) == a * (x / a % b) + x % a
  {
    var q, r := x / a, x % a;
    var q', r' := q / b, q % b;
    assert x == a * q + r && q == b * q' + r';
    Regroup(a, b, q', r', r);
    RemainderBound(a, b, r', r);
    QuotientUnique(x, a * b, q', a * r' + r);
  }

  /** The quotient of a negative number is negative, and not below the number. */
  lemma NegativeQuotient(s: int, d: nat)
    requires s < 0 && d > 0
    ensures s <= s / d < 0
  {
    var q, r := s / d, s % d;
    assert s == d * q + r;
    if q >= 0 {
      ProductMonotone(d, 0, q);
    } else {
      ProductAtLeast(d, -q - 1);
      assert d * (-q - 1) == -(d * q) - d;
    }
  }
}
