/** The limiter that protects the scanned host (internal/httpapi/targetlimit.go). */
module TargetLimit {
  import opened Bytes
  import opened Buckets
  import opened Options

  const BURST_MIN := 8
  const BURST_SPREAD := 3
  const BUCKETS := 65536
  const SECOND := 1_000_000_000
  const REFILL := 30 * SECOND
  const SWEEP_EVERY := 30 * SECOND

  type Key = k: int | 0 <= k < BUCKETS

  type Digest = d: bytes | |d| == 32 witness seq(32, _ => 0)

  /** HMAC-SHA-256 under the per-process key. */
  type Mac = bytes -> Digest

  function FoldHost(host: bytes): bytes {
    Folded(if |host| > 0 && host[|host| - 1] == DOT then host[..|host| - 1] else host)
  }

  /** How many tokens a bucket holds when it is full. */
  function Allowance(mac: Mac, key: Key): (n: nat)
    ensures 8 <= n <= 10
  {
    BURST_MIN + mac(PutU16(key) + ['b' as int])[0] % BURST_SPREAD
  }

  function BurstFor(mac: Mac, key: Key): (burst: real)
    ensures burst == 8.0 || burst == 9.0 || burst == 10.0
  {
    Allowance(mac, key) as real
  }

  function BucketFor(mac: Mac, host: bytes, port: bytes): Key {
    U16(mac(FoldHost(host) + [0] + port), 0)
  }

  function RuleOf(mac: Mac): Rule<Key> {
    Rule(k => BurstFor(mac, k), REFILL)
  }

  /** What the limiter holds: its map, the last sweep (none once cleared), and
      when the pending timer is due, if one is armed. */
  datatype State = State(buckets: map<Key, Bucket>, lastSweep: Option<int>, due: Option<int>)

  predicate SweepDue(lastSweep: Option<int>, now: int) {
    lastSweep.None? || now - lastSweep.value >= SWEEP_EVERY
  }

  predicate Full(mac: Mac, key: Key, b: Bucket, now: int) {
    b.tokens + Refilled(now - b.seen, REFILL) >= BurstFor(mac, key)
  }

  function Swept(mac: Mac, s: State, now: int): State {
    if !SweepDue(s.lastSweep, now) then s
    else s.(lastSweep := Some(now),
            buckets := map k | k in s.buckets && !Full(mac, k, s.buckets[k], now) :: s.buckets[k])
  }

  function Allowed(mac: Mac, s0: State, key: Key, now: int): (State, bool) {
    var s := Swept(mac, s0, now);
    if key !in s.buckets then
      if |s.buckets| >= BUCKETS then (s, false)
      else (State(s.buckets[key := Bucket(BurstFor(mac, key) - 1.0, now)], s.lastSweep,
          Armed(s.due, now, SWEEP_EVERY)), true)
    else
      var (b, ok) := Spend(s.buckets[key], now, BurstFor(mac, key), REFILL);
      (s.(buckets := s.buckets[key := b]), ok)
  }

  function Ticked(mac: Mac, s0: State, now: int): State {
    var s := Swept(mac, s0.(lastSweep := None), now);
    s.(due := if s.buckets != map[] then Some(now + SWEEP_EVERY) else None)
  }

  class TargetLimiter {
    const mac: Mac
    var buckets: map<Key, Bucket>
    var lastSweep: Option<int>
    var due: Option<int>

    ghost function View(): State
      reads this
    {
      State(buckets, lastSweep, due)
    }

    constructor (mac: Mac, now: int)
      ensures this.mac == mac && View() == State(map[], Some(now), None)
    {
      this.mac := mac;
      buckets, lastSweep, due := map[], Some(now), None;
    }

    method Sweep(now: int)
      modifies this
      ensures View() == Swept(mac, old(View()), now)
    {
      if lastSweep.Some? && now - lastSweep.value < SWEEP_EVERY {
        return;
      }
      lastSweep := Some(now);
      var left := buckets.Keys;
      while left != {}
        invariant left <= old(buckets).Keys
        invariant lastSweep == Some(now) && due == old(due)
        invariant buckets == map k | k in old(buckets) && (k in left || !Full(mac, k, old(buckets)[k], now)) ::
            old(buckets)[k]
        decreases left
      {
        var key :| key in left;
        left := left - {key};
        var b := buckets[key];
        if b.tokens + Refilled(now - b.seen, REFILL) >= BurstFor(mac, key) {
          buckets := buckets - {key};
        }
      }
    }

    method Allow(host: bytes, port: bytes, now: int) returns (ok: bool)
      modifies this
      ensures (View(), ok) == Allowed(mac, old(View()), BucketFor(mac, host, port), now)
    {
      var key := BucketFor(mac, host, port);
      Sweep(now);
      if key !in buckets {
        if |buckets| >= BUCKETS {
          return false;
        }
        buckets := buckets[key := Bucket(BurstFor(mac, key) - 1.0, now)];
        if due.None? {
          due := Some(now + SWEEP_EVERY);
        }
        return true;
      }
      var b := buckets[key];
      var elapsed := now - b.seen;
      if elapsed > 0 {
        b := b.(tokens := b.tokens + Refilled(elapsed, REFILL));
        var full := BurstFor(mac, key);
        if b.tokens > full {
          b := b.(tokens := full);
        }
      }
      b := b.(seen := now);
      buckets := buckets[key := b];
      if b.tokens < 1.0 {
        return false;
      }
      buckets := buckets[key := b.(tokens := b.tokens - 1.0)];
      assert buckets ==
          Swept(mac, old(View()), now).buckets[key :=
          Spend(Swept(mac, old(View()), now).buckets[key], now, BurstFor(mac, key), REFILL).0];
      return true;
    }

    method IdleTick(now: int)
      modifies this
      ensures View() == Ticked(mac, old(View()), now)
    {
      due := None;
      lastSweep := None;
      Sweep(now);
      if |buckets| > 0 {
        due := Some(now + SWEEP_EVERY);
      }
    }
  }

  // ---- Runs ----

  datatype Event = Ask(host: bytes, port: bytes, now: int) | Fire(now: int)

  ghost predicate InOrder(from: int, es: seq<Event>)
    decreases |es|
  {
    es == [] || (from <= es[0].now && InOrder(es[0].now, es[1..]))
  }

  function After(mac: Mac, s: State, e: Event): State {
    match e
    case Ask(host, port, now) => Allowed(mac, s, BucketFor(mac, host, port), now).0
    case Fire(now) => Ticked(mac, s, now)
  }

  function Replies(mac: Mac, s: State, es: seq<Event>): seq<bool>
    decreases |es|
  {
    if es == [] then []
    else
      (match es[0]
       case Ask(host, port, now) => [Allowed(mac, s, BucketFor(mac, host, port), now).1]
       case Fire(_) => [])
      + Replies(mac, After(mac, s, es[0]), es[1..])
  }

  function Requests(mac: Mac, es: seq<Event>): seq<Request<Key>> {
    if es == [] then []
    else
      (match es[0]
       case Ask(host, port, now) => [Request(BucketFor(mac, host, port), now, {})]
       case Fire(_) => [])
      + Requests(mac, es[1..])
  }

  lemma RuleSensible(mac: Mac)
    ensures Sensible(RuleOf(mac))
  {}

  lemma {:induction false} AtMost(keys: set<Key>, n: nat)
    requires forall k :: k in keys ==> k < n
    ensures |keys| <= n
  {
    if keys != {} {
      var k :| k in keys;
      if n - 1 < BUCKETS {
        AtMost(keys - {n - 1}, n - 1);
        assert keys <= (keys - {n - 1}) + {n - 1};
      } else {
        AtMost(keys, n - 1);
      }
    }
  }

  /** Sixteen bits name every bucket, so a bucket the map does not hold always fits. */
  lemma NeverFull(buckets: map<Key, Bucket>, key: Key)
    requires key !in buckets
    ensures |buckets| < BUCKETS
  {
    AtMost(buckets.Keys + {key}, BUCKETS);
    assert |buckets| == |buckets.Keys|;
  }

  lemma SweptCovers(mac: Mac, s: State, ledger: Ledger<Key>, now: int)
    requires Covers(RuleOf(mac), s.buckets, ledger, now)
    ensures Covers(RuleOf(mac), Swept(mac, s, now).buckets, ledger, now)
  {
    RuleSensible(mac);
    CoversForgetting(RuleOf(mac), s.buckets, ledger, now, Swept(mac, s, now).buckets);
  }

  /** A bucket the map does not hold starts full, and there is always room for it. */
  lemma AllowedSpends(mac: Mac, s: State, key: Key, now: int)
    ensures var kept := Swept(mac, s, now).buckets;
            var (b, ok) := Spend(Lookup(RuleOf(mac), kept, key, now), now, BurstFor(mac, key), REFILL);
            Allowed(mac, s, key, now).1 == ok && Allowed(mac, s, key, now).0.buckets == kept[key := b]
  {
    var kept := Swept(mac, s, now).buckets;
    hide Swept;
    if key !in kept {
      NeverFull(kept, key);
    }
  }

  lemma AskCovers(mac: Mac, s: State, ledger: Ledger<Key>, e: Event)
    requires e.Ask? && Covers(RuleOf(mac), s.buckets, ledger, e.now)
    ensures var key := BucketFor(mac, e.host, e.port);
            var asked := LedgerStep(RuleOf(mac), ledger, Request(key, e.now, {}));
            asked.1 == Allowed(mac, s, key, e.now).1 && Covers(RuleOf(mac), After(mac, s, e).buckets, asked.0, e.now)
  {
    hide BucketFor, Covers, LedgerStep, Swept;
    var key, kept := BucketFor(mac, e.host, e.port), Swept(mac, s, e.now).buckets;
    RuleSensible(mac);
    SweptCovers(mac, s, ledger, e.now);
    assert ledger - {} == ledger;
    CoversRequest(RuleOf(mac), kept, ledger, Request(key, e.now, {}));
    AllowedSpends(mac, s, key, e.now);
  }

  /** However sweeps and ticks fall, every answer is the one a limiter that never
      forgets a bucket would have given. */
  lemma {:induction false} ForgettingChangesNothing(mac: Mac, s: State, ledger: Ledger<Key>, from: int, es: seq<Event>)
    requires InOrder(from, es) && Covers(RuleOf(mac), s.buckets, ledger, from)
    ensures Replies(mac, s, es) == Answers(RuleOf(mac), ledger, Requests(mac, es))
    decreases |es|
  {
    hide Covers, LedgerStep, Allowed, Swept, BucketFor;
    RuleSensible(mac);
    var rule := RuleOf(mac);
    if es != [] {
      var now := es[0].now;
      CoversLater(rule, s.buckets, ledger, from, now);
      match es[0] {
        case Ask(host, port, _) =>
          var r := Request(BucketFor(mac, host, port), now, {});
          AskCovers(mac, s, ledger, es[0]);
          ForgettingChangesNothing(mac, After(mac, s, es[0]), LedgerStep(rule, ledger, r).0, now, es[1..]);
          assert Requests(mac, es)[1..] == Requests(mac, es[1..]);
        case Fire(_) =>
          SweptCovers(mac, s.(lastSweep := None), ledger, now);
          ForgettingChangesNothing(mac, After(mac, s, es[0]), ledger, now, es[1..]);
          assert Requests(mac, es) == Requests(mac, es[1..]);
      }
    }
  }

  function Last(from: int, es: seq<Event>): int
    decreases |es|
  {
    if es == [] then from else Last(es[0].now, es[1..])
  }

  lemma {:induction false} RequestsOrdered(mac: Mac, from: int, es: seq<Event>, key: Key)
    requires InOrder(from, es)
    ensures Ordered(from, Requests(mac, es)) && Resets(Requests(mac, es), key) == 0
    ensures End(from, Requests(mac, es)) <= Last(from, es)
    decreases |es|
  {
    if es != [] {
      var now, rest := es[0].now, Requests(mac, es[1..]);
      RequestsOrdered(mac, now, es[1..], key);
      match es[0] {
        case Ask(_, _, _) =>
          assert Requests(mac, es)[1..] == rest;
          assert End(from, Requests(mac, es)) == End(now, rest);
        case Fire(_) =>
          assert Requests(mac, es) == rest;
          OrderedEarlier(from, now, rest);
      }
    }
  }

  /** Whoever asks and however often, one bucket is granted at most ten requests
      and one more per thirty seconds. */
  lemma BucketBound(mac: Mac, s: State, from: int, es: seq<Event>, key: Key)
    requires InOrder(from, es) && SaneLedger(RuleOf(mac), s.buckets, from)
    ensures var rs := Requests(mac, es);
            |Replies(mac, s, es)| == |rs|
            && Grants(rs, Replies(mac, s, es), key) as real <= 10.0 + (Last(from, es) - from) as real / 30_000_000_000.0
  {
    RuleSensible(mac);
    var rule, rs := RuleOf(mac), Requests(mac, es);
    ForgettingChangesNothing(mac, s, s.buckets, from, es);
    RequestsOrdered(mac, from, es, key);
    WindowGrants(rule, s.buckets, from, Last(from, es), rs, key);
  }

  lemma {:induction false} LastAsk(mac: Mac, from: int, es: seq<Event>, e: Event)
    requires e.Ask? && InOrder(from, es + [e])
    ensures InOrder(from, es) && Last(from, es) <= e.now
    ensures Requests(mac, es + [e]) == Requests(mac, es) + [Request(BucketFor(mac, e.host, e.port), e.now, {})]
    decreases |es|
  {
    if es == [] {
      assert es + [e] == [e];
    } else {
      assert (es + [e])[1..] == es[1..] + [e];
      LastAsk(mac, es[0].now, es[1..], e);
    }
  }

  /** A run from a sane table that ends with the refusal of `e`. */
  ghost predicate Refusal(mac: Mac, s: State, from: int, es: seq<Event>, e: Event) {
    && e.Ask? && InOrder(from, es + [e]) && SaneLedger(RuleOf(mac), s.buckets, from)
    && var answers := Replies(mac, s, es + [e]);
       answers != [] && !answers[|answers| - 1]
  }

  /** Such a run as the reference sees it. */
  lemma RefusedRun(mac: Mac, s: State, from: int, es: seq<Event>, e: Event)
    requires Refusal(mac, s, from, es, e)
    ensures var rule, rs, key := RuleOf(mac), Requests(mac, es), BucketFor(mac, e.host, e.port);
            && Ordered(from, rs) && End(from, rs) <= e.now && Resets(rs, key) == 0
            && Replies(mac, s, es) == Answers(rule, s.buckets, rs)
            && !LedgerStep(rule, LedgerAfter(rule, s.buckets, rs), Request(key, e.now, {})).1
  {
    hide BucketFor, LedgerStep;
    RuleSensible(mac);
    var rule, rs, key := RuleOf(mac), Requests(mac, es), BucketFor(mac, e.host, e.port);
    LastAsk(mac, from, es, e);
    RequestsOrdered(mac, from, es, key);
    ForgettingChangesNothing(mac, s, s.buckets, from, es);
    ForgettingChangesNothing(mac, s, s.buckets, from, es + [e]);
    AnswersLast(rule, s.buckets, rs, Request(key, e.now, {}));
  }

  /** A bucket that refuses granted at least eight scans since it was last full. They need
      not have been scans of the host that is refused: names share buckets. */
  lemma RefusedNeedsEight(mac: Mac, s: State, from: int, es: seq<Event>, e: Event)
    requires Refusal(mac, s, from, es, e)
    requires var key := BucketFor(mac, e.host, e.port);
             Standing(RuleOf(mac), s.buckets, key, from) == BurstFor(mac, key)
    ensures |Replies(mac, s, es)| == |Requests(mac, es)|
    ensures Grants(Requests(mac, es), Replies(mac, s, es), BucketFor(mac, e.host, e.port)) >= 8
  {
    hide Standing, BucketFor, LedgerStep;
    RuleSensible(mac);
    RefusedRun(mac, s, from, es, e);
    RefusedAfterBurst(RuleOf(mac), s.buckets, from, Requests(mac, es),
        Request(BucketFor(mac, e.host, e.port), e.now, {}));
  }

  lemma RuleHere(mac: Mac, key: Key)
    ensures RuleOf(mac).refill == REFILL && RuleOf(mac).burst(key) == BurstFor(mac, key) >= 8.0
  {}

  lemma OneInterval(elapsed: int)
    ensures elapsed == REFILL ==> Refilled(elapsed, REFILL) == 1.0
  {}

  /** In any window that ends with a refusal the bucket granted eight scans exactly when its
      standing at the start and what came back make eight. In a window of one refill
      interval that is a standing of seven. */
  lemma EightInWindow(mac: Mac, s: State, from: int, es: seq<Event>, e: Event)
    requires Refusal(mac, s, from, es, e)
    ensures |Replies(mac, s, es)| == |Requests(mac, es)|
    ensures var key := BucketFor(mac, e.host, e.port);
            var grants := Grants(Requests(mac, es), Replies(mac, s, es), key);
            var held := Standing(RuleOf(mac), s.buckets, key, from);
            && (grants >= 8 <==> held + Refilled(e.now - from, REFILL) >= 8.0)
            && (e.now - from == REFILL ==> (grants >= 8 <==> held >= 7.0))
  {
    hide Standing, BucketFor, LedgerStep, Refilled, Answers, Grants, Replies, Requests, InOrder, RuleOf, Sensible,
        SaneLedger;
    RuleSensible(mac);
    RefusedRun(mac, s, from, es, e);
    RuleHere(mac, BucketFor(mac, e.host, e.port));
    OneInterval(e.now - from);
    RefusedGrants(RuleOf(mac), s.buckets, from, Requests(mac, es), Request(BucketFor(mac, e.host, e.port), e.now, {}),
        8);
  }

  // ---- One name, however it is spelled ----

  const DOT := '.' as int

  predicate EndsInDot(host: bytes) {
    host != [] && host[|host| - 1] == DOT
  }

  /** The same name but for case and for one dot at the end. */
  predicate SameName(g: bytes, h: bytes) {
    || Folded(g) == Folded(h)
    || (!EndsInDot(h) && Folded(g) == Folded(h) + [DOT])
    || (!EndsInDot(g) && Folded(h) == Folded(g) + [DOT])
  }

  lemma FoldedDot(host: bytes)
    ensures EndsInDot(Folded(host)) <==> EndsInDot(host)
    ensures EndsInDot(host) ==> Folded(host) == Folded(host[..|host| - 1]) + [DOT]
  {}

  /** Two spellings are folded together exactly when they name one host. */
  lemma FoldedTogether(g: bytes, h: bytes)
    ensures FoldHost(g) == FoldHost(h) <==> SameName(g, h)
  {
    hide Folded;
    FoldedDot(g);
    FoldedDot(h);
    if EndsInDot(g) && EndsInDot(h) {
      DotLast(Folded(g[..|g| - 1]), Folded(h[..|h| - 1]));
    } else if EndsInDot(g) {
      DotLast(Folded(g[..|g| - 1]), Folded(h));
    } else if EndsInDot(h) {
      DotLast(Folded(g), Folded(h[..|h| - 1]));
    }
  }

  lemma DotLast(a: bytes, b: bytes)
    ensures a + [DOT] == b + [DOT] <==> a == b
  {
    assert (a + [DOT])[..|a|] == a && (b + [DOT])[..|b|] == b;
  }

  // ---- What the key hides ----

  /** The key that gives one message a digest of its own. */
  function TellingApart(message: bytes): Mac {
    m => if m == message then seq(32, _ => 1) else seq(32, _ => 0)
  }

  lemma NoLonger(a: bytes, p: bytes, b: bytes, q: bytes)
    requires 0 !in b && a + [0] + p == b + [0] + q
    ensures |b| <= |a|
  {
    var s := a + [0] + p;
    assert s[|a|] == 0;
    assert forall i :: 0 <= i < |b| ==> s[i] == b[i];
  }

  lemma Separated(host: bytes, port: bytes, other: bytes, otherPort: bytes)
    requires 0 !in host && 0 !in other && host + [0] + port == other + [0] + otherPort
    ensures host == other && port == otherPort
  {
    NoLonger(host, port, other, otherPort);
    NoLonger(other, otherPort, host, port);
    assert host == (host + [0] + port)[..|host|] == other;
    assert port == (host + [0] + port)[|host| + 1..] == otherPort;
  }

  /** Two targets share a bucket under every key exactly when they are one name and one port. */
  lemma SharedUnderEveryKey(host: bytes, port: bytes, other: bytes, otherPort: bytes)
    requires 0 !in host && 0 !in other
    ensures (forall mac: Mac :: BucketFor(mac, host, port) == BucketFor(mac, other, otherPort)) <==>
            SameName(host, other) && port == otherPort
  {
    hide FoldHost, SameName;
    var message, otherMessage := FoldHost(host) + [0] + port, FoldHost(other) + [0] + otherPort;
    FoldedTogether(host, other);
    NoZero(host);
    NoZero(other);
    if message == otherMessage {
      Separated(FoldHost(host), port, FoldHost(other), otherPort);
    } else {
      var mac := TellingApart(message);
      assert U16(mac(message), 0) == 257 && U16(mac(otherMessage), 0) == 0;
      assert BucketFor(mac, host, port) != BucketFor(mac, other, otherPort);
    }
  }

  lemma NoZero(host: bytes)
    requires 0 !in host
    ensures 0 !in FoldHost(host)
  {}

  /** Under some key a bucket's allowance is eight, under some nine and under some ten. */
  lemma AllowanceAny(key: Key, n: nat)
    ensures 8 <= n <= 10 <==> exists mac: Mac :: BurstFor(mac, key) == n as real
  {
    if 8 <= n <= 10 {
      var mac: Mac := m => seq(32, _ => n - 8);
      assert BurstFor(mac, key) == n as real;
    }
  }

  /** The same requests at the same times, some of the names spelled otherwise. */
  ghost predicate Respelled(es: seq<Event>, fs: seq<Event>) {
    && |es| == |fs|
    && forall i :: 0 <= i < |es| ==>
         match es[i]
         case Ask(host, port, now) => fs[i].Ask? && fs[i].port == port && fs[i].now == now && SameName(fs[i].host, host)
         case Fire(_) => fs[i] == es[i]
  }

  /** Spelling a name differently buys nothing: the run draws on the same buckets and gets
      the same answers. */
  lemma {:induction false} OneBudget(mac: Mac, s: State, es: seq<Event>, fs: seq<Event>)
    requires Respelled(es, fs)
    ensures Requests(mac, fs) == Requests(mac, es) && Replies(mac, s, fs) == Replies(mac, s, es)
    decreases |es|
  {
    hide FoldHost, SameName, Allowed, Ticked;
    if es != [] {
      assert After(mac, s, fs[0]) == After(mac, s, es[0]) by {
        if es[0].Ask? {
          FoldedTogether(fs[0].host, es[0].host);
        }
      }
      if es[0].Ask? {
        FoldedTogether(fs[0].host, es[0].host);
      }
      OneBudget(mac, After(mac, s, es[0]), es[1..], fs[1..]);
    }
  }

  // ---- Eight scans, but not inside one interval ----

  const DRIP := 29 * SECOND

  /** One scan every twenty-nine seconds. */
  function Drip(host: bytes, port: bytes, n: nat): (es: seq<Event>)
    ensures |es| == n && forall i :: 0 <= i < n ==> es[i] == Ask(host, port, i * DRIP)
  {
    seq(n, i => Ask(host, port, i * DRIP))
  }

  function DripRequests(key: Key, i: nat, n: nat): (rs: seq<Request<Key>>)
    requires i <= n
  {
    seq(n - i, j requires 0 <= j => Request(key, (i + j) * DRIP, {}))
  }

  /** What `i` drips leave: each interval returns a thirtieth less than was spent. */
  ghost function Dripped(mac: Mac, key: Key, i: nat): Ledger<Key> {
    if i == 0 then map[]
    else map[key := Bucket(BurstFor(mac, key) - 1.0 - (i - 1) as real / 30.0, (i - 1) * DRIP)]
  }

  /** How many drips empty a bucket: thirty for each token after the first. */
  function DripsToEmpty(mac: Mac, key: Key): nat {
    30 * (Allowance(mac, key) - 1) + 1
  }

  lemma DripStep(mac: Mac, key: Key, i: nat)
    requires i <= DripsToEmpty(mac, key)
    ensures LedgerStep(RuleOf(mac), Dripped(mac, key, i), Request(key, i * DRIP, {})).1 == (i < DripsToEmpty(mac, key))
    ensures i < DripsToEmpty(mac, key) ==>
              LedgerStep(RuleOf(mac), Dripped(mac, key, i), Request(key, i * DRIP, {})).0 == Dripped(mac, key, i + 1)
  {
    var ledger := Dripped(mac, key, i);
    assert ledger - {} == ledger;
    assert BurstFor(mac, key) == ((DripsToEmpty(mac, key) - 1) / 30) as real + 1.0;
    if i > 0 {
      assert i * DRIP - (i - 1) * DRIP == DRIP;
      assert Refilled(DRIP, REFILL) == 29.0 / 30.0;
    }
  }

  lemma {:induction false} DripRefused(mac: Mac, key: Key, i: nat)
    requires i <= DripsToEmpty(mac, key)
    ensures var n := DripsToEmpty(mac, key) + 1;
            !Answers(RuleOf(mac), Dripped(mac, key, i), DripRequests(key, i, n))[n - i - 1]
    decreases DripsToEmpty(mac, key) - i
  {
    var n := DripsToEmpty(mac, key) + 1;
    DripStep(mac, key, i);
    assert DripRequests(key, i, n)[0] == Request(key, i * DRIP, {});
    assert DripRequests(key, i, n)[1..] == DripRequests(key, i + 1, n);
    if i < DripsToEmpty(mac, key) {
      DripRefused(mac, key, i + 1);
    }
  }

  lemma {:induction false} DripEvents(mac: Mac, host: bytes, port: bytes, es: seq<Event>, i: nat)
    requires forall j :: 0 <= j < |es| ==> es[j] == Ask(host, port, (i + j) * DRIP)
    ensures Requests(mac, es) == DripRequests(BucketFor(mac, host, port), i, i + |es|)
    ensures InOrder(i * DRIP, es)
    decreases |es|
  {
    hide BucketFor, DRIP;
    if es != [] {
      DripEvents(mac, host, port, es[1..], i + 1);
      DripLater(i);
      assert es[0] == Ask(host, port, (i + 0) * DRIP);
      assert es[1..] != [] ==> es[1..][0] == es[1];
      DripFirst(BucketFor(mac, host, port), i, i + |es|);
      RequestsFirst(mac, es);
    }
  }

  lemma DripLater(i: nat)
    ensures i * DRIP <= (i + 1) * DRIP
  {}

  lemma DripFirst(key: Key, i: nat, n: nat)
    requires i < n
    ensures DripRequests(key, i, n) == [Request(key, i * DRIP, {})] + DripRequests(key, i + 1, n)
  {}

  lemma RequestsFirst(mac: Mac, es: seq<Event>)
    requires es != [] && es[0].Ask?
    ensures Requests(mac, es) ==
        [Request(BucketFor(mac, es[0].host, es[0].port), es[0].now, {})] + Requests(mac, es[1..])
  {}

  lemma DripSpacing(host: bytes, port: bytes, n: nat, i: nat, j: nat)
    requires i < j < n
    ensures Drip(host, port, n)[j].now - Drip(host, port, n)[i].now == (j - i) * DRIP
    ensures (j - i) * DRIP <= REFILL ==> j == i + 1
  {}

  lemma NothingCovered(mac: Mac)
    ensures Covers(RuleOf(mac), map[], map[], 0)
  {}

  lemma DripAnswers(mac: Mac, host: bytes, port: bytes)
    ensures var es := Drip(host, port, DripsToEmpty(mac, BucketFor(mac, host, port)) + 1);
            var answers := Replies(mac, State(map[], Some(0), None), es);
            InOrder(0, es) && answers != [] && !answers[|answers| - 1]
  {
    hide BucketFor, Covers, LedgerStep, Allowance, DRIP, Replies;
    RuleSensible(mac);
    var key := BucketFor(mac, host, port);
    var n := DripsToEmpty(mac, key) + 1;
    var es := Drip(host, port, n);
    DripEvents(mac, host, port, es, 0);
    NothingCovered(mac);
    ForgettingChangesNothing(mac, State(map[], Some(0), None), map[], 0, es);
    DripRefused(mac, key, 0);
  }

  /** The eight scans need not fall inside one refill interval: a host scanned every
      twenty-nine seconds is refused in the end, and no interval held three scans. */
  lemma SlowDrain(mac: Mac, host: bytes, port: bytes)
    ensures var es := Drip(host, port, DripsToEmpty(mac, BucketFor(mac, host, port)) + 1);
            var answers := Replies(mac, State(map[], Some(0), None), es);
            && InOrder(0, es)
            && answers != [] && !answers[|answers| - 1]
            && forall i, j :: 0 <= i < j < |es| && es[j].now - es[i].now <= REFILL ==> j == i + 1
  {
    DripAnswers(mac, host, port);
    var n := DripsToEmpty(mac, BucketFor(mac, host, port)) + 1;
    var es := Drip(host, port, n);
    forall i, j | 0 <= i < j < |es| && es[j].now - es[i].now <= REFILL
      ensures j == i + 1
    {
      DripSpacing(host, port, n, i, j);
    }
  }

  // ---- Retention ----

  /** How long after it was seen a bucket is full again. */
  function RefillTime(mac: Mac, key: Key, b: Bucket): real {
    (BurstFor(mac, key) - b.tokens) * REFILL as real
  }

  /** While a bucket is held a timer is pending, at most one sweep interval away, and what
      the last sweep left had not refilled. */
  ghost predicate Held(mac: Mac, buckets: map<Key, Bucket>, due: Option<int>, clock: int) {
    && (buckets != map[] ==> due.Some?)
    && (due.Some? ==> clock <= due.value <= clock + SWEEP_EVERY)
    && forall k :: k in buckets ==>
         buckets[k].seen <= clock
             && (due.value - SWEEP_EVERY - buckets[k].seen) as real <= RefillTime(mac, k, buckets[k])
  }

  ghost predicate Timely(s: State, from: int, es: seq<Event>, mac: Mac)
    decreases |es|
  {
    es == [] || (
      && Punctual(s.due, from, es[0].now)
      && (es[0].Fire? ==> s.due == Some(es[0].now))
      && Timely(After(mac, s, es[0]), es[0].now, es[1..], mac))
  }

  lemma SweptHeld(mac: Mac, s: State, from: int, now: int)
    requires SaneLedger(RuleOf(mac), s.buckets, from) && from <= now
    ensures SaneLedger(RuleOf(mac), Swept(mac, s, now).buckets, now)
    ensures SweepDue(s.lastSweep, now) ==>
              forall k :: k in Swept(mac, s, now).buckets ==>
                var b := Swept(mac, s, now).buckets[k];
                (now - b.seen) as real <= RefillTime(mac, k, b)
  {
    hide BurstFor;
  }

  /** What is left after dropping entries stays held, and so does an entry just touched. */
  lemma HeldTouch(mac: Mac, buckets: map<Key, Bucket>, due: Option<int>, clock: int, fewer: map<Key, Bucket>, now: int,
                  key: Key, b: Bucket)
    requires Held(mac, buckets, due, clock) && Punctual(due, clock, now)
    requires b.seen == now && b.tokens <= BurstFor(mac, key)
    requires forall k :: k in fewer ==> k in buckets && fewer[k] == buckets[k]
    ensures Held(mac, fewer, due, now)
    ensures Held(mac, fewer[key := b], Armed(due, now, SWEEP_EVERY), now)
  {
    hide BurstFor;
    if fewer != map[] {
      var k :| k in fewer;
      assert k in buckets;
    }
  }

  /** An answer leaves what the sweep left, but for the bucket it came from. */
  lemma AskTouches(mac: Mac, s: State, e: Event)
    requires e.Ask? && SaneLedger(RuleOf(mac), Swept(mac, s, e.now).buckets, e.now)
    ensures var key, kept, next := BucketFor(mac, e.host, e.port), Swept(mac, s, e.now).buckets, After(mac, s, e);
            && key in next.buckets && next.buckets == kept[key := next.buckets[key]]
            && next.buckets[key].seen == e.now && 0.0 <= next.buckets[key].tokens <= BurstFor(mac, key)
            && (next.due == s.due || next.due == Armed(s.due, e.now, SWEEP_EVERY))
            && (key in kept ==> next.due == s.due)
            && (key !in kept ==> next.due == Armed(s.due, e.now, SWEEP_EVERY))
  {
    hide BucketFor;
    var key, kept := BucketFor(mac, e.host, e.port), Swept(mac, s, e.now).buckets;
    if key in kept {
      LevelGrows(kept[key], e.now, e.now, BurstFor(mac, key), REFILL);
    } else {
      NeverFull(kept, key);
    }
  }

  lemma StepHeld(mac: Mac, s: State, from: int, e: Event)
    requires SaneLedger(RuleOf(mac), s.buckets, from) && Held(mac, s.buckets, s.due, from)
    requires Punctual(s.due, from, e.now) && (e.Fire? ==> s.due == Some(e.now))
    ensures Held(mac, After(mac, s, e).buckets, After(mac, s, e).due, e.now)
    ensures SaneLedger(RuleOf(mac), After(mac, s, e).buckets, e.now)
  {
    hide BurstFor, BucketFor;
    match e
    case Ask(host, port, now) =>
      var key, kept := BucketFor(mac, host, port), Swept(mac, s, now).buckets;
      SweptHeld(mac, s, from, now);
      AskTouches(mac, s, e);
      HeldTouch(mac, s.buckets, s.due, from, kept, now, key, After(mac, s, e).buckets[key]);
    case Fire(now) =>
      SweptHeld(mac, s.(lastSweep := None), from, now);
  }

  lemma {:induction false} StaysHeld(mac: Mac, s: State, from: int, es: seq<Event>)
    requires SaneLedger(RuleOf(mac), s.buckets, from) && Held(mac, s.buckets, s.due, from)
    requires Timely(s, from, es, mac)
    ensures var end := Final(mac, s, es);
            Held(mac, end.buckets, end.due, Last(from, es)) && SaneLedger(RuleOf(mac), end.buckets, Last(from, es))
    decreases |es|
  {
    if es != [] {
      StepHeld(mac, s, from, es[0]);
      StaysHeld(mac, After(mac, s, es[0]), es[0].now, es[1..]);
    }
  }

  /** With a punctual timer, on every run from an empty limiter, a bucket that is held has a
      timer pending and is no older than its own refill and one sweep interval: never more
      than ten refills and that, and one refill after a single scan. */
  lemma Retention(mac: Mac, start: int, es: seq<Event>, now: int, key: Key)
    requires var s := State(map[], Some(start), None);
             && Timely(s, start, es, mac)
             && key in Final(mac, s, es).buckets && Punctual(Final(mac, s, es).due, Last(start, es), now)
    ensures var end := Final(mac, State(map[], Some(start), None), es);
            var b := end.buckets[key];
            && end.due.Some?
            && (now - b.seen) as real <= RefillTime(mac, key, b) + SWEEP_EVERY as real
            && now - b.seen <= 330_000_000_000
            && (b.tokens >= BurstFor(mac, key) - 1.0 ==> now - b.seen <= 60_000_000_000)
  {
    hide Final, Timely, Held, BurstFor;
    var s := State(map[], Some(start), None);
    NothingHeld(mac, start);
    StaysHeld(mac, s, start, es);
    var end := Final(mac, s, es);
    HeldAge(mac, end.buckets, end.due, Last(start, es), now, key);
  }

  lemma NothingHeld(mac: Mac, now: int)
    ensures Held(mac, map[], None, now)
  {}

  lemma HeldAge(mac: Mac, buckets: map<Key, Bucket>, due: Option<int>, clock: int, now: int, key: Key)
    requires Held(mac, buckets, due, clock) && Punctual(due, clock, now) && key in buckets && buckets[key].tokens >= 0.0
    ensures var b := buckets[key];
            && due.Some? && (now - b.seen) as real <= RefillTime(mac, key, b) + SWEEP_EVERY as real
            && now - b.seen <= 330_000_000_000
            && (b.tokens >= BurstFor(mac, key) - 1.0 ==> now - b.seen <= 60_000_000_000)
  {
    var burst := BurstFor(mac, key);
    hide BurstFor;
    assert (now - buckets[key].seen) as real <= RefillTime(mac, key, buckets[key]) + SWEEP_EVERY as real;
  }

  function Final(mac: Mac, s: State, es: seq<Event>): State
    decreases |es|
  {
    if es == [] then s else Final(mac, After(mac, s, es[0]), es[1..])
  }
}
