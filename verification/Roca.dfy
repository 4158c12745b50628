/** The RSALib fingerprint (internal/certinfo/roca.go). */
module Roca {
  import opened Numbers

  const GENERATOR := 65537

  const PRIMES: seq<nat> := [
    3, 5, 7, 11, 13, 17, 19, 23, 29, 31, 37, 41, 43, 47, 53, 59, 61, 67, 71,
    73, 79, 83, 89, 97, 101, 103, 107, 109, 113, 127, 131, 137, 139, 149, 151,
    157, 163, 167]

  /** Two to the 255th: the least number of 256 bits. */
  const MIN_MODULUS: nat := Power(2, 255)

  function Power(b: nat, e: nat): nat {
    if e == 0 then 1 else b * Power(b, e - 1)
  }

  /** Some power of the generator leaves this remainder. */
  ghost predicate Generated(r: nat, p: nat)
    requires p > 0
  {
    exists e: nat :: Power(GENERATOR, e) % p == r
  }

  // ---- Remainders ----

  lemma MulMod(a: nat, b: nat, p: nat)
    requires p > 0
    ensures (a * b) % p == (a % p * b) % p == (a % p * (b % p)) % p
  {
    LeftMod(a, b, p);
    LeftMod(b, a % p, p);
    assert b * (a % p) == a % p * b && b % p * (a % p) == a % p * (b % p);
  }

  lemma LeftMod(a: nat, b: nat, p: nat)
    requires p > 0
    ensures (a * b) % p == (a % p * b) % p
  {
    var q, r := a / p, a % p;
    var s := r * b;
    assert a == q * p + r;
    assert a * b == q * b * p + s by {
      assert (q * p + r) * b == q * p * b + r * b;
      assert q * p * b == q * b * p;
    }
    assert s == s / p * p + s % p;
    assert a * b == (q * b + s / p) * p + s % p;
    ModOf(q * b + s / p, p, s % p);
  }

  lemma {:induction false} PowerPositive(b: nat, e: nat)
    requires b > 0
    ensures Power(b, e) > 0
  {
    if e > 0 {
      PowerPositive(b, e - 1);
      AtLeastOnce(b, Power(b, e - 1));
    }
  }

  lemma {:induction false} PowerSum(b: nat, d: nat, e: nat)
    ensures Power(b, d + e) == Power(b, d) * Power(b, e)
  {
    if d > 0 {
      PowerSum(b, d - 1, e);
      assert b * (Power(b, d - 1) * Power(b, e)) == b * Power(b, d - 1) * Power(b, e);
    }
  }

  // ---- The orbit of one under the generator ----

  /** The remainders the powers of the generator leave, found by stepping until one comes
      back. There are fewer than `p` of them, so it ends. */
  method Reachable(p: nat) returns (reachable: set<nat>)
    requires p >= 2
    ensures forall r :: r in reachable <==> Generated(r, p)
    ensures forall r :: r in reachable ==> r < p
  {
    reachable := {};
    var x: nat := 1;
    ghost var k: nat := 0;
    assert Power(GENERATOR, 0) % p == 1;
    while x !in reachable
      invariant x < p && x == Power(GENERATOR, k) % p
      invariant forall r :: r in reachable ==> r < p && Generated(r, p)
      invariant forall e: nat :: e < k ==> Power(GENERATOR, e) % p in reachable
      invariant forall r :: r in reachable ==> r * GENERATOR % p in reachable || r * GENERATOR % p == x
      invariant k == 0 ==> reachable == {}
      decreases set r: nat | r < p && r !in reachable
    {
      ghost var before := set r: nat | r < p && r !in reachable;
      assert x in before;
      reachable := reachable + {x};
      PowerStep(k, p);
      x := x * GENERATOR % p;
      k := k + 1;
    }
    forall r: nat | Generated(r, p)
      ensures r in reachable
    {
      var e: nat :| Power(GENERATOR, e) % p == r;
      Closed(reachable, p, e);
    }
  }

  lemma PowerStep(k: nat, p: nat)
    requires p > 0
    ensures Power(GENERATOR, k) % p * GENERATOR % p == Power(GENERATOR, k + 1) % p
  {
    MulMod(Power(GENERATOR, k), GENERATOR, p);
    assert Power(GENERATOR, k + 1) == Power(GENERATOR, k) * GENERATOR;
  }

  /** A set that holds one and is closed under the generator holds every power. */
  lemma {:induction false} Closed(reachable: set<nat>, p: nat, e: nat)
    requires p >= 2 && 1 in reachable && forall r :: r in reachable ==> r * GENERATOR % p in reachable
    ensures Power(GENERATOR, e) % p in reachable
  {
    if e > 0 {
      Closed(reachable, p, e - 1);
      PowerStep(e - 1, p);
    }
  }

  method BuildReachable() returns (out: seq<set<nat>>)
    ensures |out| == |PRIMES|
    ensures forall i :: 0 <= i < |out| ==> forall r :: r in out[i] <==> Generated(r, PRIMES[i])
  {
    out := [];
    for i := 0 to |PRIMES|
      invariant |out| == i
      invariant forall j :: 0 <= j < i ==> forall r :: r in out[j] <==> Generated(r, PRIMES[j])
    {
      var reachable := Reachable(PRIMES[i]);
      out := out + [reachable];
    }
  }

  // ---- The fingerprint ----

  /** The residue of `n` is a power of the generator, for each of the primes. */
  ghost predicate Marked(n: int) {
    n >= MIN_MODULUS && forall i :: 0 <= i < |PRIMES| ==> Generated(n % PRIMES[i], PRIMES[i])
  }

  method Fingerprint(n: int) returns (marked: bool)
    ensures marked == Marked(n)
  {
    hide Generated, Power;
    PowerPositive(2, 255);
    if n <= 0 || n < MIN_MODULUS {
      return false;
    }
    var reachable := BuildReachable();
    for i := 0 to |PRIMES|
      invariant forall j :: 0 <= j < i ==> Generated(n % PRIMES[j], PRIMES[j])
    {
      var remainder := n % PRIMES[i];
      if remainder !in reachable[i] {
        return false;
      }
    }
    return true;
  }

  // ---- What it detects ----

  /** All of the primes divide a number. */
  ghost predicate DividedByAll(m: nat) {
    m > 0 && forall i :: 0 <= i < |PRIMES| ==> m % PRIMES[i] == 0
  }

  lemma ModThrough(n: nat, m: nat, p: nat)
    requires m > 0 && p > 0 && m % p == 0
    ensures n % m % p == n % p
  {
    var q, r, d := n / m, n % m, m / p;
    assert n == q * m + r && m == d * p;
    assert q * m == q * d * p by {
      assert q * (d * p) == q * d * p;
    }
    assert r == r / p * p + r % p;
    assert n == (q * d + r / p) * p + r % p;
    ModOf(q * d + r / p, p, r % p);
  }

  predicate Shape(x: nat, m: nat, k: nat, a: nat)
    requires m > 0
  {
    x == k * m + Power(GENERATOR, a) % m
  }

  /** A number of the shape RSALib gives its primes. */
  ghost predicate RsaLibPrime(x: nat, m: nat)
    requires m > 0
  {
    exists k: nat, a: nat :: Shape(x, m, k, a)
  }

  lemma PrimeResidue(x: nat, m: nat, p: nat)
    requires m > 0 && p > 0 && m % p == 0 && RsaLibPrime(x, m)
    ensures Generated(x % p, p)
  {
    var k: nat, a: nat :| Shape(x, m, k, a);
    ModOf(k, m, Power(GENERATOR, a) % m);
    ModThrough(x, m, p);
    ModThrough(Power(GENERATOR, a), m, p);
    assert Power(GENERATOR, a) % p == x % p;
  }

  /** The remainders of powers multiply to remainders of powers. */
  lemma ProductGenerated(x: nat, y: nat, p: nat)
    requires p > 0 && Generated(x % p, p) && Generated(y % p, p)
    ensures Generated(x * y % p, p)
  {
    var d: nat :| Power(GENERATOR, d) % p == x % p;
    var e: nat :| Power(GENERATOR, e) % p == y % p;
    PowerSum(GENERATOR, d, e);
    MulMod(x, y, p);
    MulMod(Power(GENERATOR, d), Power(GENERATOR, e), p);
    assert Power(GENERATOR, d + e) % p == x * y % p;
  }

  /** Every key the library makes is detected: whatever M it used, so long as the listed
      primes divide it, and whatever the exponents and multiples. */
  lemma RsaLibKeyMarked(x: nat, y: nat, m: nat)
    requires DividedByAll(m) && RsaLibPrime(x, m) && RsaLibPrime(y, m) && x * y >= MIN_MODULUS
    ensures Marked(x * y)
  {
    forall i | 0 <= i < |PRIMES|
      ensures Generated(x * y % PRIMES[i], PRIMES[i])
    {
      PrimeResidue(x, m, PRIMES[i]);
      PrimeResidue(y, m, PRIMES[i]);
      ProductGenerated(x, y, PRIMES[i]);
    }
  }

  /** So is every number congruent to a power of the generator modulo such an M. */
  lemma CongruentMarked(n: nat, e: nat, m: nat)
    requires DividedByAll(m) && n % m == Power(GENERATOR, e) % m && n >= MIN_MODULUS
    ensures Marked(n)
  {
    forall i | 0 <= i < |PRIMES|
      ensures Generated(n % PRIMES[i], PRIMES[i])
    {
      ModThrough(n, m, PRIMES[i]);
      ModThrough(Power(GENERATOR, e), m, PRIMES[i]);
    }
  }

  // ---- And what it does not establish ----

  lemma {:induction false} ModThree(e: nat)
    ensures Power(GENERATOR, e) % 3 == if e % 2 == 0 then 1 else 2
  {
    if e > 0 {
      ModThree(e - 1);
      PowerStep(e - 1, 3);
    }
  }

  lemma FiveStep(r: nat)
    requires r < 5
    ensures r * GENERATOR % 5 == 2 * r % 5
  {}

  lemma {:induction false} ModFive(e: nat)
    ensures var r := Power(GENERATOR, e) % 5;
            if e % 2 == 0 then r == 1 || r == 4 else r == 2 || r == 3
  {
    hide Power;
    if e > 0 {
      ModFive(e - 1);
      PowerStep(e - 1, 5);
      FiveStep(Power(GENERATOR, e - 1) % 5);
    } else {
      FirstPowers();
    }
  }

  /** Two modulo three and one modulo every other listed prime. */
  const BYSTANDER: nat := 57896044619237135456894684033318521877763861133535056225089650243094317031371

  lemma BystanderResidues(i: nat)
    requires i < |PRIMES|
    ensures BYSTANDER % PRIMES[i] == if i == 0 then 2 else 1
  {}

  lemma BystanderLarge()
    ensures BYSTANDER >= MIN_MODULUS
  {
    hide Power;
    SmallPower();
    PowerSum(2, 3, 2);
    PowerSum(2, 5, 5);
    PowerSum(2, 10, 5);
    PowerSum(2, 15, 15);
    PowerSum(2, 30, 30);
    PowerSum(2, 60, 60);
    PowerSum(2, 120, 120);
    PowerSum(2, 240, 15);
  }

  lemma SmallPower()
    ensures Power(2, 3) == 8 && Power(2, 2) == 4
  {
    assert Power(2, 0) == 1 && Power(2, 1) == 2;
  }

  lemma BystanderMarked()
    ensures Marked(BYSTANDER)
  {
    BystanderLarge();
    forall i | 0 <= i < |PRIMES|
      ensures Generated(BYSTANDER % PRIMES[i], PRIMES[i])
    {
      BystanderResidues(i);
      FirstPowers();
      if i == 0 {
        assert Power(GENERATOR, 1) % 3 == 2;
      } else {
        assert Power(GENERATOR, 0) % PRIMES[i] == 1;
      }
    }
  }

  lemma FirstPowers()
    ensures Power(GENERATOR, 0) == 1 && Power(GENERATOR, 1) == GENERATOR
  {}

  /** The mark is necessary for the shape, not sufficient: this number carries it, and is
      not a power of the generator modulo any M those primes divide. */
  lemma MarkNotSufficient(m: nat, e: nat)
    requires DividedByAll(m)
    ensures Marked(BYSTANDER) && BYSTANDER % m != Power(GENERATOR, e) % m
  {
    BystanderMarked();
    NotPower(m, e);
  }

  lemma NotPower(m: nat, e: nat)
    requires m > 0 && m % PRIMES[0] == 0 && m % PRIMES[1] == 0
    ensures BYSTANDER % m != Power(GENERATOR, e) % m
  {
    hide Power;
    BystanderResidues(0);
    BystanderResidues(1);
    ModThrough(BYSTANDER, m, 3);
    ModThrough(BYSTANDER, m, 5);
    ModThrough(Power(GENERATOR, e), m, 3);
    ModThrough(Power(GENERATOR, e), m, 5);
    ModThree(e);
    ModFive(e);
  }
}
