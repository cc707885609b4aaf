/** Division facts shared by the modules that halve layers or wrap around a buffer. */
module Arithmetic {

  lemma {:induction false} AtLeastOnce(m: int, p: int)
    requires m >= 1 && p > 0
    ensures m * p >= p
  {
    assert (m - 1) * p >= 0;
  }

  /** A quotient and a remainder in range are the quotient and the remainder. */
  lemma {:induction false} QuotientUnique(x: int, p: int, q: int, s: int)
    requires p > 0 && x == q * p + s && 0 <= s < p
    ensures x / p == q && x % p == s
  {
    var q', s' := x / p, x % p;
    assert (q - q') * p == s' - s;
    if q > q' {
      AtLeastOnce(q - q', p);
    } else if q < q' {
      AtLeastOnce(q' - q, p);
    }
  }

  /** Whole turns do not change the remainder. */
  lemma {:induction false} ModPlus(x: int, p: int, q: int)
    requires p > 0
    ensures (x + q * p) % p == x % p
  {
    assert x + q * p == (x / p + q) * p + x % p;
    QuotientUnique(x + q * p, p, x / p + q, x % p);
  }

  /** Positions less than a full turn apart on one cell are the same. */
  lemma {:induction false} SameCell(a: int, b: int, p: int)
    requires p > 0 && a <= b < a + p
    ensures a % p == b % p ==> a == b
  {
    var q := b / p - a / p;
    assert a == a / p * p + a % p && b == b / p * p + b % p;
    assert b - a == q * p + (b % p - a % p);
    if q >= 1 {
      AtLeastOnce(q, p);
    } else if q <= -1 {
      AtLeastOnce(-q, p);
    }
  }
}
