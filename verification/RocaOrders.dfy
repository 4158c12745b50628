/** The order of the generator modulo each of the primes (internal/certinfo/roca.go). */
module RocaOrders {
  import opened Numbers
  import opened Roca

  // ---- The order of the generator ----

  /** The powers of the generator return to one after `d` steps and not before. */
  ghost predicate IsOrder(p: nat, d: nat) {
    && p >= 2 && d > 0 && Power(GENERATOR, d) % p == 1
    && forall k: nat :: 0 < k < d ==> Power(GENERATOR, k) % p != 1
  }

  lemma PowerSumMod(d: nat, e: nat, p: nat)
    requires p > 0
    ensures Power(GENERATOR, d + e) % p == (Power(GENERATOR, d) % p) * (Power(GENERATOR, e) % p) % p
  {
    PowerSum(GENERATOR, d, e);
    MulMod(Power(GENERATOR, d), Power(GENERATOR, e), p);
  }

  lemma {:induction false} PowerReturns(k: nat, m: nat, p: nat)
    requires p >= 2 && Power(GENERATOR, k) % p == 1
    ensures Power(GENERATOR, k * m) % p == 1
  {
    hide Power;
    if m > 0 {
      PowerReturns(k, m - 1, p);
      assert k * m == k * (m - 1) + k;
      PowerSumMod(k * (m - 1), k, p);
    } else {
      FirstPowers();
    }
  }

  /** The first return comes back at every multiple of itself and nowhere else. */
  lemma ReturnDivides(k: nat, d: nat, p: nat)
    requires IsOrder(p, k) && Power(GENERATOR, d) % p == 1
    ensures d % k == 0
  {
    hide Power;
    var m, r := d / k, d % k;
    PowerReturns(k, m, p);
    Divided(d, k);
    PowerSumMod(k * m, r, p);
    OneTimes(Power(GENERATOR, r) % p, p);
  }

  lemma Divided(d: nat, k: nat)
    requires k > 0
    ensures d == k * (d / k) + d % k && 0 <= d % k < k
  {}

  lemma OneTimes(r: nat, p: nat)
    requires r < p
    ensures 1 * r % p == r
  {}

  lemma {:induction false} FirstReturn(e: nat, p: nat) returns (k: nat)
    requires p >= 2 && e > 0 && Power(GENERATOR, e) % p == 1
    ensures 0 < k <= e && IsOrder(p, k)
    decreases e
  {
    hide Power;
    if i: nat :| 0 < i < e && Power(GENERATOR, i) % p == 1 {
      k := FirstReturn(i, p);
    } else {
      k := e;
    }
  }

  // ---- A certificate for an order ----

  /** The remainder of one power: of the sum of two earlier exponents. */
  datatype Rung = Rung(e: nat, r: nat, a: nat, b: nat)

  predicate Stands(p: nat, chain: seq<Rung>, i: nat)
    requires p > 0 && i < |chain|
  {
    var c := chain[i];
    if i == 0 then c.e == 1 && c.r == GENERATOR % p
    else
      && c.a < i && c.b < i
      && c.e == chain[c.a].e + chain[c.b].e && c.r == chain[c.a].r * chain[c.b].r % p
  }

  predicate Climbs(p: nat, chain: seq<Rung>)
    requires p > 0
  {
    forall i :: 0 <= i < |chain| ==> Stands(p, chain, i)
  }

  lemma {:induction false} ChainSound(p: nat, chain: seq<Rung>, i: nat)
    requires p > 0 && Climbs(p, chain) && i < |chain|
    ensures Power(GENERATOR, chain[i].e) % p == chain[i].r
  {
    hide Power;
    FirstPowers();
    assert Stands(p, chain, i);
    if i > 0 {
      var a, b := chain[i].a, chain[i].b;
      ChainSound(p, chain, a);
      ChainSound(p, chain, b);
      PowerSumMod(chain[a].e, chain[b].e, p);
    }
  }

  predicate SmallPrime(q: nat) {
    q in {2, 3, 5, 7, 11, 13, 17, 19, 23, 29, 31, 37, 41}
  }

  function SmallFactor(m: nat): (q: nat)
    requires 2 <= m <= 41
    ensures SmallPrime(q) && 2 <= q <= m && m % q == 0
  {
    if m % 2 == 0 then 2 else if m % 3 == 0 then 3 else if m % 5 == 0 then 5 else m
  }

  lemma ShortOrLong(k: nat, m: nat)
    requires k * m < 168 && k >= 4
    ensures m <= 41
  {
    if m >= 42 {
      LargeProduct(k, m);
    }
  }

  lemma LargeProduct(k: nat, m: nat)
    requires k >= 4 && m >= 42
    ensures k * m >= 168
  {
    assert k * m >= 4 * m;
  }

  predicate Met(d: nat, q: nat, at: map<nat, nat>)
    requires q > 0
  {
    d % q == 0 && q < d ==> d / q in at
  }

  /** What shows an order: `d` returns to one, and neither one, two or three steps do nor `d`
      over any of its small prime factors. Every other proper divisor divides one of these. */
  ghost predicate Shows(d: nat, chain: seq<Rung>, at: map<nat, nat>) {
    && 0 < d < 168 && |chain| > 0 && chain[|chain| - 1].e == d && chain[|chain| - 1].r == 1
    && Met(d, 2, at) && Met(d, 3, at) && Met(d, 5, at) && Met(d, 7, at) && Met(d, 11, at) && Met(d, 13, at)
    && Met(d, 17, at) && Met(d, 19, at) && Met(d, 23, at) && Met(d, 29, at) && Met(d, 31, at)
    && Met(d, 37, at) && Met(d, 41, at)
    && (1 < d ==> 1 in at) && (2 < d && d % 2 == 0 ==> 2 in at) && (3 < d && d % 3 == 0 ==> 3 in at)
    && (forall e :: e in at ==> at[e] < |chain| && chain[at[e]].e == e && chain[at[e]].r != 1)
  }

  /** An exponent whose power is shown not to be one. */
  ghost predicate Shown(chain: seq<Rung>, at: map<nat, nat>, e: nat) {
    e in at && at[e] < |chain| && chain[at[e]].e == e && chain[at[e]].r != 1
  }

  lemma ShowsSmall(d: nat, chain: seq<Rung>, at: map<nat, nat>, q: nat)
    requires Shows(d, chain, at) && SmallPrime(q) && d % q == 0 && q < d
    ensures Shown(chain, at, d / q)
  {
    assert Met(d, q, at);
  }

  lemma ShowsShort(d: nat, chain: seq<Rung>, at: map<nat, nat>, k: nat)
    requires Shows(d, chain, at) && 1 <= k <= 3 && k < d && d % k == 0
    ensures Shown(chain, at, k)
  {
    hide Met;
  }

  lemma ShownPower(p: nat, chain: seq<Rung>, at: map<nat, nat>, e: nat)
    requires p > 0 && Climbs(p, chain) && Shown(chain, at, e)
    ensures Power(GENERATOR, e) % p != 1
  {
    ChainSound(p, chain, at[e]);
  }

  lemma NoShorter(p: nat, d: nat, chain: seq<Rung>, at: map<nat, nat>, k: nat)
    requires p >= 2 && Climbs(p, chain) && Shows(d, chain, at) && 0 < d < 168
    requires 0 < k < d && Power(GENERATOR, k) % p == 1
    ensures d % k != 0
  {
    hide Power, Climbs, SmallPrime, Shows, Shown;
    if d % k == 0 {
      if k <= 3 {
        ShowsShort(d, chain, at, k);
        ShownPower(p, chain, at, k);
      } else {
        var m := d / k;
        Divided(d, k);
        ShortOrLong(k, m);
        Quotient(k, m, d);
        var q := SmallFactor(m);
        FactorOfFactor(k, m, q, d);
        ShowsSmall(d, chain, at, q);
        ShownPower(p, chain, at, d / q);
        PowerReturns(k, m / q, p);
      }
    }
  }

  lemma Quotient(k: nat, m: nat, d: nat)
    requires d == k * m && 0 < k < d
    ensures m >= 2
  {}

  lemma FactorOfFactor(k: nat, m: nat, q: nat, d: nat)
    requires d == k * m && q >= 2 && m > 0 && m % q == 0 && k >= 2
    ensures d % q == 0 && d / q == k * (m / q) && q < d
  {
    var n := m / q;
    assert m == q * n;
    assert d == (k * n) * q + 0 by {
      assert k * (q * n) == (k * n) * q;
    }
    ModOf(k * n, q, 0);
    assert n >= 1;
    assert d == (k * n) * q;
    AtLeastOnce(n, k);
    AtLeastOnce(k * n - 1, q);
  }

  lemma Certified(p: nat, d: nat, at: map<nat, nat>, chain: seq<Rung>)
    requires p >= 2 && Climbs(p, chain) && Shows(d, chain, at)
    ensures IsOrder(p, d)
  {
    hide Power, Climbs;
    ChainSound(p, chain, |chain| - 1);
    forall j: nat | 0 < j < d
      ensures Power(GENERATOR, j) % p != 1
    {
      if Power(GENERATOR, j) % p == 1 {
        var k := FirstReturn(j, p);
        ReturnDivides(k, d, p);
        NoShorter(p, d, chain, at, k);
      }
    }
  }

  // ---- The orders ----

  const ORDERS: seq<nat> := [
    2, 4, 6, 2, 6, 8, 9, 22, 28, 30, 3, 40, 42, 46, 26, 58, 20, 66, 35, 24, 13, 82, 88, 6, 100, 51, 53, 54, 112, 42,
    130, 136, 138, 148, 50, 78, 162, 166]

  lemma OrderOf3()
    ensures IsOrder(3, 2)
  {
    hide Power, IsOrder;
    Certified(3, 2, map[1 := 0], [
      Rung(1, 2, 0, 0), Rung(2, 1, 0, 0)]);
  }

  lemma OrderOf5()
    ensures IsOrder(5, 4)
  {
    hide Power, IsOrder;
    Certified(5, 4, map[1 := 0, 2 := 1], [
      Rung(1, 2, 0, 0), Rung(2, 4, 0, 0), Rung(4, 1, 1, 1)]);
  }

  lemma OrderOf7()
    ensures IsOrder(7, 6)
  {
    hide Power, IsOrder;
    Certified(7, 6, map[1 := 0, 2 := 1, 3 := 2], [
      Rung(1, 3, 0, 0), Rung(2, 2, 0, 0), Rung(3, 6, 1, 0), Rung(6, 1, 2, 2)]);
  }

  lemma OrderOf11()
    ensures IsOrder(11, 2)
  {
    hide Power, IsOrder;
    Certified(11, 2, map[1 := 0], [
      Rung(1, 10, 0, 0), Rung(2, 1, 0, 0)]);
  }

  lemma OrderOf13()
    ensures IsOrder(13, 6)
  {
    hide Power, IsOrder;
    Certified(13, 6, map[1 := 0, 2 := 1, 3 := 2], [
      Rung(1, 4, 0, 0), Rung(2, 3, 0, 0), Rung(3, 12, 1, 0), Rung(6, 1, 2, 2)]);
  }

  lemma OrderOf17()
    ensures IsOrder(17, 8)
  {
    hide Power, IsOrder;
    Certified(17, 8, map[1 := 0, 2 := 1, 4 := 2], [
      Rung(1, 2, 0, 0), Rung(2, 4, 0, 0), Rung(4, 16, 1, 1), Rung(8, 1, 2, 2)]);
  }

  lemma OrderOf19()
    ensures IsOrder(19, 9)
  {
    hide Power, IsOrder;
    Certified(19, 9, map[1 := 0, 3 := 2], [
      Rung(1, 6, 0, 0), Rung(2, 17, 0, 0), Rung(3, 7, 1, 0), Rung(6, 11, 2, 2), Rung(9, 1, 3, 2)]);
  }

  lemma OrderOf23()
    ensures IsOrder(23, 22)
  {
    hide Power, IsOrder;
    Certified(23, 22, map[1 := 0, 2 := 1, 11 := 5], [
      Rung(1, 10, 0, 0), Rung(2, 8, 0, 0), Rung(3, 11, 1, 0), Rung(4, 18, 2, 0), Rung(8, 2, 3, 3),
      Rung(11, 22, 4, 2), Rung(22, 1, 5, 5)]);
  }

  lemma OrderOf29()
    ensures IsOrder(29, 28)
  {
    hide Power, IsOrder;
    Certified(29, 28, map[1 := 0, 2 := 1, 4 := 2, 14 := 5], [
      Rung(1, 26, 0, 0), Rung(2, 9, 0, 0), Rung(4, 23, 1, 1), Rung(6, 4, 2, 1), Rung(8, 7, 3, 1), Rung(14, 28, 4, 3),
      Rung(28, 1, 5, 5)]);
  }

  lemma OrderOf31()
    ensures IsOrder(31, 30)
  {
    hide Power, IsOrder;
    Certified(31, 30, map[1 := 0, 2 := 1, 3 := 2, 6 := 3, 10 := 5, 15 := 6], [
      Rung(1, 3, 0, 0), Rung(2, 9, 0, 0), Rung(3, 27, 1, 0), Rung(6, 16, 2, 2), Rung(9, 29, 3, 2),
      Rung(10, 25, 4, 0), Rung(15, 30, 4, 3), Rung(30, 1, 6, 6)]);
  }

  lemma OrderOf37()
    ensures IsOrder(37, 3)
  {
    hide Power, IsOrder;
    Certified(37, 3, map[1 := 0], [
      Rung(1, 10, 0, 0), Rung(2, 26, 0, 0), Rung(3, 1, 1, 0)]);
  }

  lemma OrderOf41()
    ensures IsOrder(41, 40)
  {
    hide Power, IsOrder;
    Certified(41, 40, map[1 := 0, 2 := 1, 8 := 3, 20 := 5], [
      Rung(1, 19, 0, 0), Rung(2, 33, 0, 0), Rung(4, 23, 1, 1), Rung(8, 37, 2, 2), Rung(16, 16, 3, 3),
      Rung(20, 40, 4, 2), Rung(40, 1, 5, 5)]);
  }

  lemma OrderOf43()
    ensures IsOrder(43, 42)
  {
    hide Power, IsOrder;
    Certified(43, 42, map[1 := 0, 2 := 1, 3 := 2, 6 := 3, 14 := 5, 21 := 6], [
      Rung(1, 5, 0, 0), Rung(2, 25, 0, 0), Rung(3, 39, 1, 0), Rung(6, 16, 2, 2), Rung(7, 37, 3, 0),
      Rung(14, 36, 4, 4), Rung(21, 42, 5, 4), Rung(42, 1, 6, 6)]);
  }

  lemma OrderOf47()
    ensures IsOrder(47, 46)
  {
    hide Power, IsOrder;
    Certified(47, 46, map[1 := 0, 2 := 1, 23 := 6], [
      Rung(1, 19, 0, 0), Rung(2, 32, 0, 0), Rung(4, 37, 1, 1), Rung(5, 45, 2, 0), Rung(9, 20, 3, 2),
      Rung(18, 24, 4, 4), Rung(23, 46, 5, 3), Rung(46, 1, 6, 6)]);
  }

  lemma OrderOf53()
    ensures IsOrder(53, 26)
  {
    hide Power, IsOrder;
    Certified(53, 26, map[1 := 0, 2 := 1, 13 := 5], [
      Rung(1, 29, 0, 0), Rung(2, 46, 0, 0), Rung(4, 49, 1, 1), Rung(5, 43, 2, 0), Rung(9, 40, 3, 2),
      Rung(13, 52, 4, 2), Rung(26, 1, 5, 5)]);
  }

  lemma OrderOf59()
    ensures IsOrder(59, 58)
  {
    hide Power, IsOrder;
    Certified(59, 58, map[1 := 0, 2 := 1, 29 := 7], [
      Rung(1, 47, 0, 0), Rung(2, 26, 0, 0), Rung(4, 27, 1, 1), Rung(8, 21, 2, 2), Rung(12, 36, 3, 2),
      Rung(16, 28, 4, 2), Rung(28, 5, 5, 4), Rung(29, 58, 6, 0), Rung(58, 1, 7, 7)]);
  }

  lemma OrderOf61()
    ensures IsOrder(61, 20)
  {
    hide Power, IsOrder;
    Certified(61, 20, map[1 := 0, 2 := 1, 4 := 2, 10 := 4], [
      Rung(1, 23, 0, 0), Rung(2, 41, 0, 0), Rung(4, 34, 1, 1), Rung(6, 52, 2, 1), Rung(10, 60, 3, 2),
      Rung(20, 1, 4, 4)]);
  }

  lemma OrderOf67()
    ensures IsOrder(67, 66)
  {
    hide Power, IsOrder;
    Certified(67, 66, map[1 := 0, 2 := 1, 3 := 2, 6 := 3, 22 := 6, 33 := 7], [
      Rung(1, 11, 0, 0), Rung(2, 54, 0, 0), Rung(3, 58, 1, 0), Rung(6, 14, 2, 2), Rung(9, 8, 3, 2),
      Rung(11, 30, 4, 1), Rung(22, 29, 5, 5), Rung(33, 66, 6, 5), Rung(66, 1, 7, 7)]);
  }

  lemma OrderOf71()
    ensures IsOrder(71, 35)
  {
    hide Power, IsOrder;
    Certified(71, 35, map[1 := 0, 5 := 3, 7 := 4], [
      Rung(1, 4, 0, 0), Rung(2, 16, 0, 0), Rung(3, 64, 1, 0), Rung(5, 30, 2, 1), Rung(7, 54, 3, 1),
      Rung(14, 5, 4, 4), Rung(21, 57, 5, 4), Rung(35, 1, 6, 5)]);
  }

  lemma OrderOf73()
    ensures IsOrder(73, 24)
  {
    hide Power, IsOrder;
    Certified(73, 24, map[1 := 0, 2 := 1, 3 := 2, 8 := 4, 12 := 5], [
      Rung(1, 56, 0, 0), Rung(2, 70, 0, 0), Rung(3, 51, 1, 0), Rung(6, 46, 2, 2), Rung(8, 8, 3, 1),
      Rung(12, 72, 3, 3), Rung(24, 1, 5, 5)]);
  }

  lemma OrderOf79()
    ensures IsOrder(79, 13)
  {
    hide Power, IsOrder;
    Certified(79, 13, map[1 := 0], [
      Rung(1, 46, 0, 0), Rung(2, 62, 0, 0), Rung(4, 52, 1, 1), Rung(5, 22, 2, 0), Rung(8, 18, 2, 2),
      Rung(13, 1, 4, 3)]);
  }

  lemma OrderOf83()
    ensures IsOrder(83, 82)
  {
    hide Power, IsOrder;
    Certified(83, 82, map[1 := 0, 2 := 1, 41 := 7], [
      Rung(1, 50, 0, 0), Rung(2, 10, 0, 0), Rung(4, 17, 1, 1), Rung(8, 40, 2, 2), Rung(12, 16, 3, 2),
      Rung(20, 59, 4, 3), Rung(40, 78, 5, 5), Rung(41, 82, 6, 0), Rung(82, 1, 7, 7)]);
  }

  lemma OrderOf89()
    ensures IsOrder(89, 88)
  {
    hide Power, IsOrder;
    Certified(89, 88, map[1 := 0, 2 := 1, 8 := 3, 44 := 7], [
      Rung(1, 33, 0, 0), Rung(2, 21, 0, 0), Rung(4, 85, 1, 1), Rung(8, 16, 2, 2), Rung(12, 25, 3, 2),
      Rung(20, 44, 4, 3), Rung(22, 34, 5, 1), Rung(44, 88, 6, 6), Rung(88, 1, 7, 7)]);
  }

  lemma OrderOf97()
    ensures IsOrder(97, 6)
  {
    hide Power, IsOrder;
    Certified(97, 6, map[1 := 0, 2 := 1, 3 := 2], [
      Rung(1, 62, 0, 0), Rung(2, 61, 0, 0), Rung(3, 96, 1, 0), Rung(6, 1, 2, 2)]);
  }

  lemma OrderOf101()
    ensures IsOrder(101, 100)
  {
    hide Power, IsOrder;
    Certified(101, 100, map[1 := 0, 2 := 1, 20 := 5, 50 := 7], [
      Rung(1, 89, 0, 0), Rung(2, 43, 0, 0), Rung(4, 31, 1, 1), Rung(8, 52, 2, 2), Rung(10, 14, 3, 1),
      Rung(20, 95, 4, 4), Rung(40, 36, 5, 5), Rung(50, 100, 6, 4), Rung(100, 1, 7, 7)]);
  }

  lemma OrderOf103()
    ensures IsOrder(103, 51)
  {
    hide Power, IsOrder;
    Certified(103, 51, map[1 := 0, 3 := 2, 17 := 6], [
      Rung(1, 29, 0, 0), Rung(2, 17, 0, 0), Rung(3, 81, 1, 0), Rung(5, 38, 2, 1), Rung(7, 28, 3, 1),
      Rung(10, 2, 4, 2), Rung(17, 56, 5, 4), Rung(34, 46, 6, 6), Rung(51, 1, 7, 6)]);
  }

  lemma OrderOf107()
    ensures IsOrder(107, 53)
  {
    hide Power, IsOrder;
    Certified(107, 53, map[1 := 0], [
      Rung(1, 53, 0, 0), Rung(2, 27, 0, 0), Rung(3, 40, 1, 0), Rung(5, 10, 2, 1), Rung(8, 79, 3, 2),
      Rung(16, 35, 4, 4), Rung(21, 29, 5, 3), Rung(37, 52, 6, 5), Rung(53, 1, 7, 5)]);
  }

  lemma OrderOf109()
    ensures IsOrder(109, 54)
  {
    hide Power, IsOrder;
    Certified(109, 54, map[1 := 0, 2 := 1, 3 := 2, 18 := 5, 27 := 6], [
      Rung(1, 28, 0, 0), Rung(2, 21, 0, 0), Rung(3, 43, 1, 0), Rung(6, 105, 2, 2), Rung(9, 46, 3, 2),
      Rung(18, 45, 4, 4), Rung(27, 108, 5, 4), Rung(54, 1, 6, 6)]);
  }

  lemma OrderOf113()
    ensures IsOrder(113, 112)
  {
    hide Power, IsOrder;
    Certified(113, 112, map[1 := 0, 2 := 1, 16 := 4, 56 := 7], [
      Rung(1, 110, 0, 0), Rung(2, 9, 0, 0), Rung(4, 81, 1, 1), Rung(8, 7, 2, 2), Rung(16, 49, 3, 3),
      Rung(32, 28, 4, 4), Rung(48, 16, 5, 4), Rung(56, 112, 6, 3), Rung(112, 1, 7, 7)]);
  }

  lemma OrderOf127()
    ensures IsOrder(127, 42)
  {
    hide Power, IsOrder;
    Certified(127, 42, map[1 := 0, 2 := 1, 3 := 2, 6 := 3, 14 := 5, 21 := 6], [
      Rung(1, 5, 0, 0), Rung(2, 25, 0, 0), Rung(3, 125, 1, 0), Rung(6, 4, 2, 2), Rung(7, 20, 3, 0),
      Rung(14, 19, 4, 4), Rung(21, 126, 5, 4), Rung(42, 1, 6, 6)]);
  }

  lemma OrderOf131()
    ensures IsOrder(131, 130)
  {
    hide Power, IsOrder;
    Certified(131, 130, map[1 := 0, 2 := 1, 10 := 4, 26 := 6, 65 := 8], [
      Rung(1, 37, 0, 0), Rung(2, 59, 0, 0), Rung(3, 87, 1, 0), Rung(5, 24, 2, 1), Rung(10, 52, 3, 3),
      Rung(13, 70, 4, 2), Rung(26, 53, 5, 5), Rung(52, 58, 6, 6), Rung(65, 130, 7, 5), Rung(130, 1, 8, 8)]);
  }

  lemma OrderOf137()
    ensures IsOrder(137, 136)
  {
    hide Power, IsOrder;
    Certified(137, 136, map[1 := 0, 2 := 1, 8 := 3, 68 := 7], [
      Rung(1, 51, 0, 0), Rung(2, 135, 0, 0), Rung(4, 4, 1, 1), Rung(8, 16, 2, 2), Rung(16, 119, 3, 3),
      Rung(32, 50, 4, 4), Rung(64, 34, 5, 5), Rung(68, 136, 6, 2), Rung(136, 1, 7, 7)]);
  }

  lemma OrderOf139()
    ensures IsOrder(139, 138)
  {
    hide Power, IsOrder;
    Certified(139, 138, map[1 := 0, 2 := 1, 3 := 2, 6 := 3, 46 := 8, 69 := 9], [
      Rung(1, 68, 0, 0), Rung(2, 37, 0, 0), Rung(3, 14, 1, 0), Rung(6, 57, 2, 2), Rung(8, 24, 3, 1),
      Rung(12, 52, 3, 3), Rung(20, 136, 5, 4), Rung(23, 97, 6, 2), Rung(46, 96, 7, 7), Rung(69, 138, 8, 7),
      Rung(138, 1, 9, 9)]);
  }

  lemma OrderOf149()
    ensures IsOrder(149, 148)
  {
    hide Power, IsOrder;
    Certified(149, 148, map[1 := 0, 2 := 1, 4 := 2, 74 := 8], [
      Rung(1, 126, 0, 0), Rung(2, 82, 0, 0), Rung(4, 19, 1, 1), Rung(8, 63, 2, 2), Rung(12, 5, 3, 2),
      Rung(24, 25, 4, 4), Rung(36, 125, 5, 4), Rung(37, 105, 6, 0), Rung(74, 148, 7, 7), Rung(148, 1, 8, 8)]);
  }

  lemma OrderOf151()
    ensures IsOrder(151, 50)
  {
    hide Power, IsOrder;
    Certified(151, 50, map[1 := 0, 2 := 1, 10 := 4, 25 := 6], [
      Rung(1, 3, 0, 0), Rung(2, 9, 0, 0), Rung(3, 27, 1, 0), Rung(5, 92, 2, 1), Rung(10, 8, 3, 3),
      Rung(15, 132, 4, 3), Rung(25, 150, 5, 4), Rung(50, 1, 6, 6)]);
  }

  lemma OrderOf157()
    ensures IsOrder(157, 78)
  {
    hide Power, IsOrder;
    Certified(157, 78, map[1 := 0, 2 := 1, 3 := 2, 6 := 3, 26 := 6, 39 := 7], [
      Rung(1, 68, 0, 0), Rung(2, 71, 0, 0), Rung(3, 118, 1, 0), Rung(6, 108, 2, 2), Rung(7, 122, 3, 0),
      Rung(13, 145, 4, 3), Rung(26, 144, 5, 5), Rung(39, 156, 6, 5), Rung(78, 1, 7, 7)]);
  }

  lemma OrderOf163()
    ensures IsOrder(163, 162)
  {
    hide Power, IsOrder;
    Certified(163, 162, map[1 := 0, 2 := 1, 3 := 2, 54 := 7, 81 := 8], [
      Rung(1, 11, 0, 0), Rung(2, 121, 0, 0), Rung(3, 27, 1, 0), Rung(6, 77, 2, 2), Rung(9, 123, 3, 2),
      Rung(18, 133, 4, 4), Rung(27, 59, 5, 4), Rung(54, 58, 6, 6), Rung(81, 162, 7, 6), Rung(162, 1, 8, 8)]);
  }

  lemma OrderOf167()
    ensures IsOrder(167, 166)
  {
    hide Power, IsOrder;
    Certified(167, 166, map[1 := 0, 2 := 1, 83 := 8], [
      Rung(1, 73, 0, 0), Rung(2, 152, 0, 0), Rung(3, 74, 1, 0), Rung(5, 59, 2, 1), Rung(10, 141, 3, 3),
      Rung(20, 8, 4, 4), Rung(40, 64, 5, 5), Rung(80, 88, 6, 6), Rung(83, 166, 7, 2), Rung(166, 1, 8, 8)]);
  }

  lemma AllOrders()
    ensures |ORDERS| == |PRIMES|
    ensures forall i :: 0 <= i < |PRIMES| ==> IsOrder(PRIMES[i], ORDERS[i])
  {
    hide IsOrder;
    OrderOf3();
    OrderOf5();
    OrderOf7();
    OrderOf11();
    OrderOf13();
    OrderOf17();
    OrderOf19();
    OrderOf23();
    OrderOf29();
    OrderOf31();
    OrderOf37();
    OrderOf41();
    OrderOf43();
    OrderOf47();
    OrderOf53();
    OrderOf59();
    OrderOf61();
    OrderOf67();
    OrderOf71();
    OrderOf73();
    OrderOf79();
    OrderOf83();
    OrderOf89();
    OrderOf97();
    OrderOf101();
    OrderOf103();
    OrderOf107();
    OrderOf109();
    OrderOf113();
    OrderOf127();
    OrderOf131();
    OrderOf137();
    OrderOf139();
    OrderOf149();
    OrderOf151();
    OrderOf157();
    OrderOf163();
    OrderOf167();
  }
}
