/** Remainders. */
module Numbers {

  lemma Distribute(a: int, b: int, n: int)
    ensures (a - b) * n == a * n - b * n
  {}

  lemma AtLeastOnce(d: int, n: int)
    requires d >= 1 && n >= 1
    ensures d * n >= n && (-d) * n <= -n
  {}

  lemma NoMultiple(d: int, n: int, e: int)
    requires d * n == e && -n < e < n
    ensures d == 0
  {
    if d >= 1 {
      AtLeastOnce(d, n);
    } else if d <= -1 {
      AtLeastOnce(-d, n);
    }
  }

  /** A number is its quotient and its remainder in one way only. */
  lemma ModOf(q: int, p: nat, r: nat)
    requires r < p
    ensures (q * p + r) % p == r && (q * p + r) / p == q
  {
    var x := q * p + r;
    assert x == x / p * p + x % p;
    Distribute(q, x / p, p);
    NoMultiple(q - x / p, p, x % p - r);
  }
}
