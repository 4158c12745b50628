/** How many residues carry the RSALib mark (internal/certinfo/roca.go). */
module RocaOdds {
  import opened Numbers
  import opened Roca
  import opened RocaOrders

  // ---- Counting images ----

  lemma {:induction false} ImageCount(s: set<nat>, f: nat -> nat)
    requires forall a, b :: a in s && b in s && f(a) == f(b) ==> a == b
    ensures |set a | a in s :: f(a)| == |s|
  {
    if s != {} {
      var x :| x in s;
      var rest := s - {x};
      ImageCount(rest, f);
      var images := set a | a in rest :: f(a);
      assert (set a | a in s :: f(a)) == images + {f(x)};
      assert f(x) !in images;
    }
  }

  lemma BijectionCount(s: set<nat>, t: set<nat>, f: nat -> nat, g: nat -> nat)
    requires forall a :: a in s ==> f(a) in t && g(f(a)) == a
    requires forall b :: b in t ==> g(b) in s && f(g(b)) == b
    ensures |s| == |t|
  {
    forall a, b | a in s && b in s && f(a) == f(b)
      ensures a == b
    {
      assert g(f(a)) == a && g(f(b)) == b;
    }
    ImageCount(s, f);
    assert t == set a | a in s :: f(a);
  }

  function Upto(n: nat): (s: set<nat>)
    ensures |s| == n && forall k: nat :: k in s <==> k < n
  {
    if n == 0 then {} else Upto(n - 1) + {n - 1}
  }

  // ---- The remainders the generator reaches ----

  ghost function Reached(p: nat): set<nat>
    requires p > 0
  {
    set r: nat | r < p && Generated(r, p)
  }

  function PowerMod(p: nat): nat -> nat
    requires p > 0
  {
    e => Power(GENERATOR, e) % p
  }

  lemma PowerReduced(p: nat, d: nat, e: nat)
    requires IsOrder(p, d)
    ensures Power(GENERATOR, e) % p == Power(GENERATOR, e % d) % p
  {
    hide Power;
    Divided(e, d);
    PowerReturns(d, e / d, p);
    PowerSumMod(d * (e / d), e % d, p);
    OneTimes(Power(GENERATOR, e % d) % p, p);
  }

  lemma PowersDistinct(p: nat, d: nat, i: nat, j: nat)
    requires IsOrder(p, d) && i < j < d
    ensures Power(GENERATOR, i) % p != Power(GENERATOR, j) % p
  {
    hide Power;
    PowerSumMod(i, d - i, p);
    PowerSumMod(j, d - i, p);
    if Power(GENERATOR, i) % p == Power(GENERATOR, j) % p {
      assert j + (d - i) == d + (j - i) && i + (d - i) == d;
      PowerSumMod(d, j - i, p);
      OneTimes(Power(GENERATOR, j - i) % p, p);
    }
  }

  /** They are as many as the steps it takes to come back. */
  lemma ReachedCount(p: nat, d: nat)
    requires IsOrder(p, d)
    ensures |Reached(p)| == d
  {
    hide Power;
    var exponents := Upto(d);
    forall a, b | a in exponents && b in exponents && PowerMod(p)(a) == PowerMod(p)(b)
      ensures a == b
    {
      if a < b {
        PowersDistinct(p, d, a, b);
      } else if b < a {
        PowersDistinct(p, d, b, a);
      }
    }
    ImageCount(exponents, PowerMod(p));
    var images := set e | e in exponents :: PowerMod(p)(e);
    forall r | r in Reached(p)
      ensures r in images
    {
      var e: nat :| Power(GENERATOR, e) % p == r;
      PowerReduced(p, d, e);
      assert e % d in exponents && PowerMod(p)(e % d) == r;
    }
    assert images == Reached(p);
  }

  // ---- The Chinese remainder theorem, counted ----

  /** The number below `m * p` that leaves `a` and `b`, where `u` inverts `m` modulo `p`. */
  function Solution(m: nat, p: nat, u: nat, a: nat, b: nat): nat
    requires p > 0
  {
    a + m * ((b + (p - a % p)) * u % p)
  }

  lemma Rearranged(m: nat, x: nat, u: nat)
    ensures m * (x * u) == x * (m * u)
  {}

  lemma TimesInverse(m: nat, p: nat, u: nat, x: nat)
    requires p > 0 && m * u % p == 1
    ensures m * (x * u % p) % p == x % p
  {
    MulMod(x * u, m, p);
    assert x * u % p * m == m * (x * u % p) && x * u * m == m * (x * u);
    Rearranged(m, x, u);
    MulMod(m * u, x, p);
    assert m * u * x == x * (m * u) && 1 * x == x;
  }

  lemma ModSum(x: nat, y: nat, p: nat)
    requires p > 0
    ensures (x + y) % p == (x % p + y % p) % p
  {
    var s := x % p + y % p;
    Divided(x, p);
    Divided(y, p);
    Divided(s, p);
    var q := x / p + y / p + s / p;
    assert q * p == p * (x / p) + p * (y / p) + p * (s / p);
    assert x + y == q * p + s % p;
    ModOf(q, p, s % p);
  }

  lemma SolutionLeft(m: nat, p: nat, u: nat, a: nat, b: nat)
    requires p > 0 && a < m
    ensures Solution(m, p, u, a, b) < m * p && Solution(m, p, u, a, b) % m == a
  {
    var t := (b + (p - a % p)) * u % p;
    assert m * t == t * m;
    ModOf(t, m, a);
    Below(m, t, p);
  }

  lemma Below(m: nat, t: nat, p: nat)
    requires t < p
    ensures m * t + m <= m * p
  {
    assert m * p - m * t == m * (p - t);
    if m > 0 {
      AtLeastOnce(p - t, m);
    }
  }

  lemma SolutionRight(m: nat, p: nat, u: nat, a: nat, b: nat)
    requires p > 0 && b < p && m * u % p == 1
    ensures Solution(m, p, u, a, b) % p == b
  {
    var x := b + (p - a % p);
    TimesInverse(m, p, u, x);
    ModSum(a, m * (x * u % p), p);
    Cancels(a, b, p);
  }

  lemma Cancels(a: nat, b: nat, p: nat)
    requires p > 0 && b < p
    ensures (a % p + (b + (p - a % p)) % p) % p == b
  {
    var c := a % p;
    OneTimes(c, p);
    ModSum(c, b + (p - c), p);
    assert c + (b + (p - c)) == 1 * p + b;
    ModOf(1, p, b);
  }

  /** It is the only one. */
  lemma OneSolution(m: nat, p: nat, u: nat, x: nat, y: nat)
    requires m > 0 && p > 0 && m * u % p == 1 && x <= y < m * p && x % m == y % m && x % p == y % p
    ensures x == y
  {
    GapMultiple(m, x, y);
    GapZero(p, x, y);
    QuotientBelow(y / m, m, p, y);
    NoGap(m, p, u, y - x, y / m - x / m);
  }

  lemma NoGap(m: nat, p: nat, u: nat, gap: nat, k: nat)
    requires gap == m * k && k < p && gap % p == 0 && m * u % p == 1
    ensures gap == 0
  {
    Cleared(m, u, k, p);
    SmallMultiple(k, p);
  }

  lemma GapMultiple(m: nat, x: nat, y: nat)
    requires m > 0 && x <= y && x % m == y % m
    ensures x / m <= y / m && y - x == m * (y / m - x / m)
  {
    var q, r := x / m, y / m;
    Divided(x, m);
    Divided(y, m);
    NotLess(m, q, r, x % m);
    assert m * (r - q) == m * r - m * q;
  }

  lemma RemainderRange(x: nat, p: nat)
    requires p > 0
    ensures 0 <= x % p < p
  {}

  lemma GapZero(p: nat, x: nat, y: nat)
    requires p > 0 && x <= y && x % p == y % p
    ensures (y - x) % p == 0
  {
    var z := y - x;
    ModSum(x, z, p);
    assert x + z == y;
    RemainderRange(x, p);
    RemainderRange(z, p);
    RemainderZero(x % p, z % p, p);
  }

  lemma Commuted(m: nat, k: nat, u: nat)
    ensures m * k * u == m * u * k
  {
    assert k * u == u * k;
    assert m * k * u == m * (k * u) && m * u * k == m * (u * k);
  }

  lemma ZeroAndOne(u: nat, k: nat, p: nat)
    requires p > 0
    ensures 0 * u % p == 0 && 1 * k % p == k % p
  {}

  lemma Cleared(m: nat, u: nat, k: nat, p: nat)
    requires p > 0 && m * k % p == 0 && m * u % p == 1
    ensures k % p == 0
  {
    MulMod(m * k, u, p);
    Commuted(m, k, u);
    ZeroAndOne(u, k, p);
    MulMod(m * u, k, p);
  }

  lemma SmallMultiple(k: nat, p: nat)
    requires k < p && k % p == 0
    ensures k == 0
  {}

  lemma QuotientBelow(r: nat, m: nat, p: nat, y: nat)
    requires m > 0 && y < m * p && r == y / m
    ensures r < p
  {
    Divided(y, m);
    if r >= p {
      NotSmaller(m, p, r);
    }
  }

  lemma NotSmaller(m: nat, p: nat, r: nat)
    requires p <= r
    ensures m * p <= m * r
  {
    if p < r {
      Below(m, p, r);
    }
  }

  lemma NotLess(m: nat, q: nat, r: nat, a: nat)
    requires m * q + a <= m * r + a
    ensures m == 0 || q <= r
  {
    if m > 0 && r < q {
      Below(m, r, q);
    }
  }

  lemma RemainderZero(a: nat, c: nat, p: nat)
    requires a < p && c < p && (a + c) % p == a
    ensures c == 0
  {
    if a + c >= p {
      ModOf(1, p, a + c - p);
    } else {
      ModOf(0, p, a + c);
    }
  }

  // ---- Classes of residues ----

  ghost function Matching(m: nat, p: nat, s: set<nat>, t: set<nat>): set<nat>
    requires m > 0 && p > 0
  {
    set n | n in Upto(m * p) && n % m in s && n % p in t
  }

  lemma OneMore(m: nat, p: nat, s: set<nat>, t: set<nat>, a: nat)
    requires m > 0 && p > 0 && a !in s
    ensures Matching(m, p, s + {a}, t) == Matching(m, p, s, t) + Matching(m, p, {a}, t)
    ensures Matching(m, p, s, t) !! Matching(m, p, {a}, t)
  {}

  lemma Product(n: nat, t: nat)
    ensures (n + 1) * t == n * t + t
  {}

  predicate Inverts(m: nat, p: nat, u: nat) {
    m > 0 && p > 0 && m * u % p == 1
  }

  /** The numbers below `m * p` with one of `s` modulo `m` and one of `t` modulo `p` are as
      many as the pairs. */
  lemma {:induction false} PairCount(m: nat, p: nat, u: nat, s: set<nat>, t: set<nat>)
    requires m > 0 && p > 0 && Inverts(m, p, u)
    requires (forall a :: a in s ==> a < m) && (forall b :: b in t ==> b < p)
    ensures |Matching(m, p, s, t)| == |s| * |t|
  {
    if s == {} {
      assert Matching(m, p, s, t) == {};
    } else {
      hide Matching, Inverts;
      var a :| a in s;
      var rest := s - {a};
      assert s == rest + {a} && |s| == |rest| + 1;
      OneMore(m, p, rest, t, a);
      PairCount(m, p, u, rest, t);
      FiberCount(m, p, u, a, t);
      Product(|rest|, |t|);
    }
  }

  function Solving(m: nat, p: nat, u: nat, a: nat): nat -> nat
    requires p > 0
  {
    b => Solution(m, p, u, a, b)
  }

  lemma FiberCount(m: nat, p: nat, u: nat, a: nat, t: set<nat>)
    requires m > 0 && p > 0 && Inverts(m, p, u) && a < m && forall b :: b in t ==> b < p
    ensures |Matching(m, p, {a}, t)| == |t|
  {
    hide Matching, Solving, Inverts;
    var f, g, fiber := Solving(m, p, u, a), (n: nat) => n % p, Matching(m, p, {a}, t);
    forall b | b in t
      ensures f(b) in fiber && g(f(b)) == b
    {
      SolutionMatches(m, p, u, a, b, t);
    }
    forall n | n in fiber
      ensures g(n) in t && f(g(n)) == n
    {
      SolutionIs(m, p, u, a, n, t);
    }
    BijectionCount(t, fiber, f, g);
  }

  lemma SolutionMatches(m: nat, p: nat, u: nat, a: nat, b: nat, t: set<nat>)
    requires m > 0 && p > 0 && Inverts(m, p, u) && a < m && b in t && b < p
    ensures Solving(m, p, u, a)(b) in Matching(m, p, {a}, t) && Solving(m, p, u, a)(b) % p == b
  {
    hide Solution;
    SolutionLeft(m, p, u, a, b);
    SolutionRight(m, p, u, a, b);
  }

  lemma SolutionIs(m: nat, p: nat, u: nat, a: nat, n: nat, t: set<nat>)
    requires m > 0 && p > 0 && Inverts(m, p, u) && a < m && n in Matching(m, p, {a}, t)
    ensures n % p in t && Solving(m, p, u, a)(n % p) == n
  {
    hide Solution;
    var x := Solution(m, p, u, a, n % p);
    SolutionLeft(m, p, u, a, n % p);
    SolutionRight(m, p, u, a, n % p);
    if x <= n {
      OneSolution(m, p, u, x, n);
    } else {
      OneSolution(m, p, u, n, x);
    }
  }

  // ---- All the primes together ----

  /** Modulo the first `i` primes: their product, and in how many ways a number can be a
      power of the generator modulo each. */
  const MODULI: seq<nat> := [
    1, 3, 15, 105, 1155, 15015, 255255, 4849845, 111546435, 3234846615, 100280245065, 3710369067405, 152125131763605,
    6541380665835015, 307444891294245705, 16294579238595022365, 961380175077106319535, 58644190679703485491635,
    3929160775540133527939545, 278970415063349480483707695, 20364840299624512075310661735,
    1608822383670336453949542277065, 133532257844637925677812008996395, 11884370948172775385325268800679155,
    1152783981972759212376551073665878035, 116431182179248680450031658440253681535,
    11992411764462614086353260819346129198105, 1283188058797499707239798907670035824197235,
    139867498408927468089138080936033904837498615, 15805027320208803894072603145771831246637343495,
    2007238469666518094547220599513022568322942623865, 262948239526313870385685898536205956450305483726315,
    36023908815105000242838968099460216033691851270505155, 5007323325299595033754616565824970028683167326600216545,
    746091175469639660029437868307920534273791931663432265205,
    112659767495915588664445118114496000675342581681178272045955,
    17687583496858747420317883543975872106028785323944988711214935,
    2883076109987975829511815017668067153282692007803033159928034405,
    481473710367991963528473107950567214598209565303106537707981745635]

  const MARKED: seq<nat> := [
    1, 2, 8, 48, 96, 576, 4608, 41472, 912384, 25546752, 766402560, 2299207680, 91968307200, 3862668902400,
    177682769510400, 4619752007270400, 267945616421683200, 5358912328433664000, 353688213676621824000,
    12379087478681763840000, 297098099488362332160000, 3862275293348710318080000, 316706574054594246082560000,
    27870178516804293655265280000, 167221071100825761931591680000, 16722107110082576193159168000000,
    852827462614211385851117568000000, 45199855518553203450109231104000000, 2440792198001872986305898479616000000,
    273368726176209774466260629716992000000, 11481486499400810527582946448113664000000,
    1492593244922105368585783038254776320000000, 202992681309406330127666493202649579520000000,
    28012990020698073557617976061965641973760000000, 4145922523063314886527460457170915012116480000000,
    207296126153165744326373022858545750605824000000000, 16169097839946928057457095782966568547254272000000000,
    2619393850071402345308049516840584104655192064000000000,
    434819379111852789321136219795536961372761882624000000000]

  /** What inverts the product of the primes before it modulo each. */
  const INVERSES: seq<nat> := [
    1, 2, 1, 2, 6, 13, 17, 17, 24, 5, 17, 14, 10, 39, 4, 8, 20, 9, 6, 47, 40, 23, 35, 7, 65, 22, 60, 54, 98, 99, 126,
    21, 50, 13, 135, 3, 79, 106]

  const COUNT := 38

  lemma Lengths()
    ensures |PRIMES| == |ORDERS| == |INVERSES| == COUNT && |MODULI| == |MARKED| == COUNT + 1
  {}

  function Prime(i: nat): (p: nat)
    requires i < COUNT
    ensures p >= 2
  {
    PRIMES[i]
  }

  function Modulus(i: nat): (m: nat)
    requires i <= COUNT
    ensures m > 0
  {
    MODULI[i]
  }

  function Inverse(i: nat): nat
    requires i < COUNT
  {
    INVERSES[i]
  }

  lemma ModuliGrow(i: nat)
    requires i < COUNT
    ensures Modulus(i + 1) == Modulus(i) * Prime(i)
  {
    if i < 19 {
      ModuliGrowLow(i);
    } else {
      ModuliGrowHigh(i);
    }
  }

  lemma ModuliGrowLow(i: nat)
    requires i < 19
    ensures Modulus(i + 1) == Modulus(i) * Prime(i)
  {}

  lemma ModuliGrowHigh(i: nat)
    requires 19 <= i < COUNT
    ensures Modulus(i + 1) == Modulus(i) * Prime(i)
  {}

  lemma MarkedGrow(i: nat)
    requires i < COUNT
    ensures |MARKED| == COUNT + 1 && |ORDERS| == COUNT && MARKED[i + 1] == MARKED[i] * ORDERS[i]
  {
    if i < 19 {
      MarkedGrowLow(i);
    } else {
      MarkedGrowHigh(i);
    }
  }

  lemma MarkedGrowLow(i: nat)
    requires i < 19
    ensures |MARKED| == COUNT + 1 && |ORDERS| == COUNT && MARKED[i + 1] == MARKED[i] * ORDERS[i]
  {}

  lemma MarkedGrowHigh(i: nat)
    requires 19 <= i < COUNT
    ensures |MARKED| == COUNT + 1 && |ORDERS| == COUNT && MARKED[i + 1] == MARKED[i] * ORDERS[i]
  {}

  lemma Inverted(i: nat)
    requires i < COUNT
    ensures Modulus(i) * Inverse(i) % Prime(i) == 1
  {
    if i < 10 {
      InvertedFirst(i);
    } else if i < 20 {
      InvertedSecond(i);
    } else if i < 29 {
      InvertedThird(i);
    } else {
      InvertedFourth(i);
    }
  }

  lemma InvertedFirst(i: nat)
    requires i < 10
    ensures Modulus(i) * Inverse(i) % Prime(i) == 1
  {}

  lemma InvertedSecond(i: nat)
    requires 10 <= i < 20
    ensures Modulus(i) * Inverse(i) % Prime(i) == 1
  {}

  lemma InvertedThird(i: nat)
    requires 20 <= i < 29
    ensures Modulus(i) * Inverse(i) % Prime(i) == 1
  {}

  lemma InvertedFourth(i: nat)
    requires 29 <= i < COUNT
    ensures Modulus(i) * Inverse(i) % Prime(i) == 1
  {}

  lemma MulZero(m: nat, q: nat, p: nat)
    requires p > 0 && m % p == 0
    ensures m * q % p == 0
  {
    MulMod(m, q, p);
    ZeroAndOne(q, q, p);
  }

  lemma SelfZero(m: nat, p: nat)
    requires p > 0
    ensures m * p % p == 0
  {
    ModOf(m, p, 0);
  }

  lemma {:induction false} Divides(i: nat, j: nat)
    requires j < i <= COUNT
    ensures Modulus(i) % Prime(j) == 0
  {
    hide Modulus, Prime;
    ModuliGrow(i - 1);
    if j < i - 1 {
      Divides(i - 1, j);
      MulZero(Modulus(i - 1), Prime(i - 1), Prime(j));
    } else {
      SelfZero(Modulus(j), Prime(j));
    }
  }

  /** A remainder the mark allows modulo one prime. */
  ghost predicate Allows(n: nat, j: nat)
    requires j < COUNT
  {
    Generated(n % Prime(j), Prime(j))
  }

  /** The residues modulo the first `i` primes that the mark allows. */
  ghost function Classes(i: nat): set<nat>
    requires i <= COUNT
  {
    set n | n in Upto(Modulus(i)) && forall j :: 0 <= j < i ==> Allows(n, j)
  }

  lemma AllowsThrough(n: nat, i: nat, j: nat)
    requires j < i <= COUNT
    ensures Allows(n % Modulus(i), j) <==> Allows(n, j)
  {
    hide Modulus, Prime, Generated;
    Divides(i, j);
    ModThrough(n, Modulus(i), Prime(j));
  }

  lemma ReachedHere(n: nat, i: nat)
    requires i < COUNT
    ensures Allows(n, i) <==> n % Prime(i) in Reached(Prime(i))
  {
    hide Prime, Generated;
  }

  lemma ClassesGrow(i: nat)
    requires i < COUNT
    ensures Classes(i + 1) == Matching(Modulus(i), Prime(i), Classes(i), Reached(Prime(i)))
  {
    hide Modulus, Prime, Allows, Reached;
    ModuliGrow(i);
    var pairs := Matching(Modulus(i), Prime(i), Classes(i), Reached(Prime(i)));
    forall n: nat
      ensures n in Classes(i + 1) <==> n in pairs
    {
      ReachedHere(n, i);
      forall j | 0 <= j < i
        ensures Allows(n % Modulus(i), j) <==> Allows(n, j)
      {
        AllowsThrough(n, i, j);
      }
    }
  }

  lemma ReachedIs(i: nat)
    requires i < COUNT
    ensures |ORDERS| == COUNT && |Reached(Prime(i))| == ORDERS[i] && forall r :: r in Reached(Prime(i)) ==> r < Prime(i)
  {
    hide ORDERS, IsOrder, Generated;
    AllOrders();
    Lengths();
    ReachedCount(Prime(i), ORDERS[i]);
  }

  lemma {:induction false} ClassCount(i: nat)
    requires i <= COUNT
    ensures |MARKED| == COUNT + 1 && |Classes(i)| == MARKED[i]
  {
    if i == 0 {
      FirstClass();
    } else {
      ClassCount(i - 1);
      NextClass(i - 1);
    }
  }

  lemma FirstClass()
    ensures |MARKED| == COUNT + 1 && |Classes(0)| == MARKED[0]
  {
    assert Modulus(0) == 1;
    assert Classes(0) == Upto(1);
  }

  lemma NextClass(i: nat)
    requires i < COUNT && |MARKED| == COUNT + 1 && |Classes(i)| == MARKED[i]
    ensures |Classes(i + 1)| == MARKED[i + 1]
  {
    MarkedGrow(i);
    hide Modulus, Prime, Inverse, MARKED, ORDERS, Matching, Reached;
    ClassesGrow(i);
    Inverted(i);
    ReachedIs(i);
    PairCount(Modulus(i), Prime(i), Inverse(i), Classes(i), Reached(Prime(i)));
  }

  // ---- The odds ----

  /** Whether a number is marked is decided by its residue modulo the product of the primes. */
  lemma MarkedByClass(n: nat)
    requires n >= MIN_MODULUS
    ensures Marked(n) <==> n % Modulus(COUNT) in Classes(COUNT)
  {
    hide Modulus, MIN_MODULUS, PRIMES, Allows, Generated;
    forall j | 0 <= j < COUNT
      ensures Allows(n % Modulus(COUNT), j) <==> Allows(n, j)
    {
      AllowsThrough(n, COUNT, j);
    }
    AllowsAll(n);
  }

  lemma AllowsAll(n: nat)
    ensures (forall j :: 0 <= j < COUNT ==> Allows(n, j)) <==>
              forall j :: 0 <= j < |PRIMES| ==> Generated(n % PRIMES[j], PRIMES[j])
  {
    Lengths();
    hide Generated;
    assert forall j :: 0 <= j < COUNT ==> (Allows(n, j) <==> Generated(n % PRIMES[j], PRIMES[j]));
  }

  /** The mark allows one residue in fewer than 2^31, not one in about 2^100: so many of them,
      counted, of the product of the listed primes. */
  lemma MarkedOdds()
    ensures |Classes(COUNT)| == MARKED[COUNT]
    ensures |Classes(COUNT)| * 0x8000_0000 > Modulus(COUNT)
  {
    ClassCount(COUNT);
    Last();
  }

  lemma Last()
    ensures |MARKED| == COUNT + 1 && MARKED[COUNT] * 0x8000_0000 > Modulus(COUNT)
  {}
}
