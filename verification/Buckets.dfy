/** Token buckets, and the limiter that never forgets.

    Three limiters of the service keep one token bucket per key in a bounded map
    and drop entries on purpose. The reference here keeps every bucket for ever;
    each limiter is proved to answer as the reference does.
 */
module Buckets {
  import opened Options

  /** Tokens are exact reals; times are ticks of one clock. */
  datatype Bucket = Bucket(tokens: real, seen: int)

  /** How much a key may hold, and how long one token takes to return. */
  datatype Rule<!K> = Rule(burst: K -> real, refill: int)

  ghost predicate Sensible<K(!new)>(rule: Rule<K>) {
    rule.refill > 0 && forall k :: rule.burst(k) >= 1.0
  }

  /** One request, preceded by dropping what the keys in `reset` had spent. */
  datatype Request<K> = Request(key: K, now: int, reset: set<K>)

  type Ledger<K> = map<K, Bucket>

  /** Tokens that come back over a stretch of time. */
  function Refilled(elapsed: int, refill: int): real
    requires refill > 0
  {
    elapsed as real / refill as real
  }

  function Level(b: Bucket, now: int, burst: real, refill: int): real
    requires refill > 0
  {
    if now <= b.seen then b.tokens
    else
      var t := b.tokens + Refilled(now - b.seen, refill);
      if t > burst then burst else t
  }

  /** The bucket after a request, and whether the request was granted. */
  function Spend(b: Bucket, now: int, burst: real, refill: int): (Bucket, bool)
    requires refill > 0
  {
    var t := Level(b, now, burst, refill);
    if t < 1.0 then (Bucket(t, now), false) else (Bucket(t - 1.0, now), true)
  }

  ghost predicate Sane(b: Bucket, now: int, burst: real) {
    0.0 <= b.tokens <= burst && b.seen <= now
  }

  ghost predicate SaneLedger<K(!new)>(rule: Rule<K>, ledger: Ledger<K>, now: int) {
    forall k :: k in ledger ==> Sane(ledger[k], now, rule.burst(k))
  }

  // ---- The reference limiter: a key it has not met holds a full bucket. ----

  function Lookup<K>(rule: Rule<K>, ledger: Ledger<K>, key: K, now: int): Bucket {
    if key in ledger then ledger[key] else Bucket(rule.burst(key), now)
  }

  function LedgerStep<K>(rule: Rule<K>, ledger: Ledger<K>, r: Request<K>): (Ledger<K>, bool)
    requires rule.refill > 0
  {
    var kept := ledger - r.reset;
    var (b, ok) := Spend(Lookup(rule, kept, r.key, r.now), r.now, rule.burst(r.key), rule.refill);
    (kept[r.key := b], ok)
  }

  function Answers<K>(rule: Rule<K>, ledger: Ledger<K>, rs: seq<Request<K>>): (answers: seq<bool>)
    requires rule.refill > 0
    ensures |answers| == |rs|
    decreases |rs|
  {
    if rs == [] then []
    else
      var (next, ok) := LedgerStep(rule, ledger, rs[0]);
      [ok] + Answers(rule, next, rs[1..])
  }

  /** Requests in the order of a clock that never runs back, none before `from`. */
  ghost predicate Ordered<K>(from: int, rs: seq<Request<K>>)
    decreases |rs|
  {
    rs == [] || (from <= rs[0].now && Ordered(rs[0].now, rs[1..]))
  }

  lemma OrderedEarlier<K>(from: int, later: int, rs: seq<Request<K>>)
    requires from <= later && Ordered(later, rs)
    ensures Ordered(from, rs) && End(from, rs) <= End(later, rs)
  {}

  function Grants<K(==)>(rs: seq<Request<K>>, answers: seq<bool>, key: K): nat
    requires |answers| == |rs|
  {
    if rs == [] then 0
    else (if rs[0].key == key && answers[0] then 1 else 0) + Grants(rs[1..], answers[1..], key)
  }

  /** How often a key's spending was dropped. */
  function Resets<K(==)>(rs: seq<Request<K>>, key: K): nat {
    if rs == [] then 0
    else (if key in rs[0].reset then 1 else 0) + Resets(rs[1..], key)
  }

  function End<K>(from: int, rs: seq<Request<K>>): int {
    if rs == [] then from else rs[|rs| - 1].now
  }

  /** What a key could spend at once. */
  function Standing<K>(rule: Rule<K>, ledger: Ledger<K>, key: K, now: int): real
    requires rule.refill > 0
  {
    if key in ledger then Level(ledger[key], now, rule.burst(key), rule.refill) else rule.burst(key)
  }

  // ---- Arithmetic of refilling ----

  lemma RefilledMonotone(a: int, b: int, refill: int)
    requires refill > 0 && a <= b
    ensures Refilled(a, refill) <= Refilled(b, refill)
  {
    assert Refilled(b, refill) - Refilled(a, refill) == (b - a) as real / refill as real;
  }

  lemma RefilledSum(a: int, b: int, refill: int)
    requires refill > 0
    ensures Refilled(a + b, refill) == Refilled(a, refill) + Refilled(b, refill)
  {}

  lemma RefilledWhole(n: int, refill: int)
    requires refill > 0
    ensures Refilled(n * refill, refill) == n as real
  {
    assert (n * refill) as real == n as real * refill as real;
  }

  /** Waiting only helps, and helps by no more than the time waited. */
  lemma LevelGrows(b: Bucket, t: int, u: int, burst: real, refill: int)
    requires refill > 0 && t <= u && Sane(b, t, burst)
    ensures 0.0 <= Level(b, t, burst, refill) <= Level(b, u, burst, refill) <= burst
    ensures Level(b, u, burst, refill) <= Level(b, t, burst, refill) + Refilled(u - t, refill)
  {
    RefilledMonotone(0, t - b.seen, refill);
    RefilledMonotone(t - b.seen, u - b.seen, refill);
    RefilledMonotone(0, u - t, refill);
    RefilledSum(t - b.seen, u - t, refill);
  }

  lemma LedgerStepSane<K(!new)>(rule: Rule<K>, ledger: Ledger<K>, from: int, r: Request<K>)
    requires Sensible(rule) && from <= r.now && SaneLedger(rule, ledger, from)
    ensures SaneLedger(rule, LedgerStep(rule, ledger, r).0, r.now)
  {
    var b := Lookup(rule, ledger - r.reset, r.key, r.now);
    LevelGrows(b, r.now, r.now, rule.burst(r.key), rule.refill);
  }

  /** One request moves a key's standing by what time, a reset and a grant do. */
  lemma StandingStep<K(!new)>(rule: Rule<K>, ledger: Ledger<K>, from: int, r: Request<K>, key: K)
    requires Sensible(rule) && from <= r.now && SaneLedger(rule, ledger, from)
    ensures var (next, ok) := LedgerStep(rule, ledger, r);
            var spent := if r.key == key && ok then 1.0 else 0.0;
            && Standing(rule, next, key, r.now) + spent
               <= Standing(rule, ledger, key, from) + Refilled(r.now - from, rule.refill)
                  + (if key in r.reset then rule.burst(key) else 0.0)
            && Standing(rule, next, key, r.now) + spent >= Standing(rule, ledger, key, from)
            && 0.0 <= Standing(rule, next, key, r.now) <= rule.burst(key)
  {
    RefilledMonotone(0, r.now - from, rule.refill);
    if key in ledger {
      LevelGrows(ledger[key], from, r.now, rule.burst(key), rule.refill);
    }
    LedgerStepSane(rule, ledger, from, r);
  }

  /** `n` bursts, added up. */
  function Bursts(n: nat, burst: real): real {
    if n == 0 then 0.0 else burst + Bursts(n - 1, burst)
  }

  lemma {:induction false} BurstsProduct(n: nat, burst: real)
    ensures Bursts(n, burst) == n as real * burst
  {
    if n > 0 {
      BurstsProduct(n - 1, burst);
      assert n as real * burst == (n - 1) as real * burst + burst;
    }
  }

  lemma StandingHeld<K(!new)>(rule: Rule<K>, ledger: Ledger<K>, from: int, key: K)
    requires Sensible(rule) && SaneLedger(rule, ledger, from)
    ensures 0.0 <= Standing(rule, ledger, key, from) <= rule.burst(key)
  {
    if key in ledger {
      LevelGrows(ledger[key], from, from, rule.burst(key), rule.refill);
    }
  }

  /** Over any stretch of requests a key is granted at most its standing at the
      start, one request per refill interval, and one burst per reset. */
  lemma {:induction false} GrantBound<K(!new)>(rule: Rule<K>, ledger: Ledger<K>, from: int, rs: seq<Request<K>>, key: K)
    requires Sensible(rule) && Ordered(from, rs) && SaneLedger(rule, ledger, from)
    ensures Grants(rs, Answers(rule, ledger, rs), key) as real
            <= Standing(rule, ledger, key, from) + Refilled(End(from, rs) - from, rule.refill)
               + Bursts(Resets(rs, key), rule.burst(key))
    decreases |rs|
  {
    hide LedgerStep, Standing, SaneLedger;
    if rs == [] {
      StandingHeld(rule, ledger, from, key);
    } else {
      var r, rest := rs[0], rs[1..];
      var next := LedgerStep(rule, ledger, r).0;
      StandingStep(rule, ledger, from, r, key);
      LedgerStepSane(rule, ledger, from, r);
      GrantBound(rule, next, r.now, rest, key);
      assert Answers(rule, ledger, rs)[1..] == Answers(rule, next, rest);
      assert End(from, rs) == End(r.now, rest);
      RefilledSum(r.now - from, End(from, rs) - r.now, rule.refill);
    }
  }

  /** The same for a window that ends at `to`, whatever the key held at its start. */
  lemma WindowGrants<K(!new)>(rule: Rule<K>, ledger: Ledger<K>, from: int, to: int, rs: seq<Request<K>>, key: K)
    requires Sensible(rule) && Ordered(from, rs) && SaneLedger(rule, ledger, from) && End(from, rs) <= to
    ensures Grants(rs, Answers(rule, ledger, rs), key) as real
            <= rule.burst(key) + Refilled(to - from, rule.refill) + Bursts(Resets(rs, key), rule.burst(key))
  {
    GrantBound(rule, ledger, from, rs, key);
    RefilledMonotone(End(from, rs) - from, to - from, rule.refill);
    StandingHeld(rule, ledger, from, key);
  }

  function LedgerAfter<K>(rule: Rule<K>, ledger: Ledger<K>, rs: seq<Request<K>>): Ledger<K>
    requires rule.refill > 0
    decreases |rs|
  {
    if rs == [] then ledger else LedgerAfter(rule, LedgerStep(rule, ledger, rs[0]).0, rs[1..])
  }

  /** A key loses standing only by being granted requests. */
  lemma {:induction false} StandingAfter<K(!new)>(rule: Rule<K>, ledger: Ledger<K>, from: int, rs: seq<Request<K>>,
                                           key: K)
    requires Sensible(rule) && Ordered(from, rs) && SaneLedger(rule, ledger, from)
    ensures var end := LedgerAfter(rule, ledger, rs);
            && SaneLedger(rule, end, End(from, rs))
            && Standing(rule, end, key, End(from, rs))
               >= Standing(rule, ledger, key, from) - Grants(rs, Answers(rule, ledger, rs), key) as real
    decreases |rs|
  {
    if rs != [] {
      var r, rest := rs[0], rs[1..];
      var next := LedgerStep(rule, ledger, r).0;
      StandingStep(rule, ledger, from, r, key);
      LedgerStepSane(rule, ledger, from, r);
      StandingAfter(rule, next, r.now, rest, key);
      assert Answers(rule, ledger, rs)[1..] == Answers(rule, next, rest);
      assert End(from, rs) == End(r.now, rest);
    }
  }

  lemma {:induction false} AnswersLast<K>(rule: Rule<K>, ledger: Ledger<K>, rs: seq<Request<K>>, r: Request<K>)
    requires rule.refill > 0
    ensures Answers(rule, ledger, rs + [r])
            == Answers(rule, ledger, rs) + [LedgerStep(rule, LedgerAfter(rule, ledger, rs), r).1]
    decreases |rs|
  {
    if rs == [] {
      assert rs + [r] == [r];
    } else {
      AnswersLast(rule, LedgerStep(rule, ledger, rs[0]).0, rs[1..], r);
      assert (rs + [r])[1..] == rs[1..] + [r];
    }
  }

  /** A refusal means the key's whole burst was granted since it was last full. */
  lemma RefusedAfterBurst<K(!new)>(rule: Rule<K>, ledger: Ledger<K>, from: int, rs: seq<Request<K>>, r: Request<K>)
    requires Sensible(rule) && Ordered(from, rs) && SaneLedger(rule, ledger, from)
    requires End(from, rs) <= r.now
    requires Standing(rule, ledger, r.key, from) == rule.burst(r.key)
    requires !LedgerStep(rule, LedgerAfter(rule, ledger, rs), r).1
    ensures Grants(rs, Answers(rule, ledger, rs), r.key) as real > rule.burst(r.key) - 1.0
  {
    StandingAfter(rule, ledger, from, rs, r.key);
    StandingStep(rule, LedgerAfter(rule, ledger, rs), End(from, rs), r, r.key);
  }

  function Lesser(a: real, b: real): real {
    if a <= b then a else b
  }

  /** A request costs a key's standing at most the one token, after all the time waited. */
  lemma StandingRefilled<K(!new)>(rule: Rule<K>, ledger: Ledger<K>, from: int, r: Request<K>, key: K)
    requires Sensible(rule) && from <= r.now && SaneLedger(rule, ledger, from)
    ensures var (next, ok) := LedgerStep(rule, ledger, r);
            Standing(rule, next, key, r.now) + (if r.key == key && ok then 1.0 else 0.0)
            >= Lesser(rule.burst(key), Standing(rule, ledger, key, from) + Refilled(r.now - from, rule.refill))
  {
    if key in ledger && key !in r.reset {
      RefilledSum(from - ledger[key].seen, r.now - from, rule.refill);
      LevelGrows(ledger[key], from, r.now, rule.burst(key), rule.refill);
    }
    StandingStep(rule, ledger, from, r, key);
  }

  /** A refused key was granted all it held and all that came back, up to its burst, but
      for less than one request. */
  lemma {:induction false} GrantFloor<K(!new)>(rule: Rule<K>, ledger: Ledger<K>, from: int, rs: seq<Request<K>>,
                                        r: Request<K>)
    requires Sensible(rule) && Ordered(from, rs) && SaneLedger(rule, ledger, from)
    requires End(from, rs) <= r.now
    requires !LedgerStep(rule, LedgerAfter(rule, ledger, rs), r).1
    ensures Grants(rs, Answers(rule, ledger, rs), r.key) as real + 1.0
            > Lesser(rule.burst(r.key), Standing(rule, ledger, r.key, from) + Refilled(r.now - from, rule.refill))
    decreases |rs|
  {
    hide LedgerStep, Standing;
    if rs == [] {
      StandingRefilled(rule, ledger, from, r, r.key);
      RefusedEmpty(rule, ledger, r);
    } else {
      var first, rest := rs[0], rs[1..];
      var next := LedgerStep(rule, ledger, first).0;
      StandingRefilled(rule, ledger, from, first, r.key);
      LedgerStepSane(rule, ledger, from, first);
      assert End(from, rs) == End(first.now, rest);
      GrantFloor(rule, next, first.now, rest, r);
      assert Answers(rule, ledger, rs)[1..] == Answers(rule, next, rest);
      OrderedEnds(first.now, rest);
      RefilledSum(first.now - from, r.now - first.now, rule.refill);
      RefilledMonotone(0, r.now - first.now, rule.refill);
    }
  }

  lemma RefusedEmpty<K(!new)>(rule: Rule<K>, ledger: Ledger<K>, r: Request<K>)
    requires rule.refill > 0 && !LedgerStep(rule, ledger, r).1
    ensures Standing(rule, LedgerStep(rule, ledger, r).0, r.key, r.now) < 1.0
  {}

  lemma {:induction false} OrderedEnds<K>(from: int, rs: seq<Request<K>>)
    requires Ordered(from, rs)
    ensures from <= End(from, rs)
    decreases |rs|
  {
    if rs != [] {
      OrderedEnds(rs[0].now, rs[1..]);
    }
  }

  /** How many requests a refused key was granted in any window that ends with the refusal:
      at least `n` exactly when what it held at the start and what came back make `n`. */
  lemma RefusedGrants<K(!new)>(rule: Rule<K>, ledger: Ledger<K>, from: int, rs: seq<Request<K>>, r: Request<K>, n: nat)
    requires Sensible(rule) && Ordered(from, rs) && SaneLedger(rule, ledger, from)
    requires End(from, rs) <= r.now && Resets(rs, r.key) == 0 && n as real <= rule.burst(r.key)
    requires !LedgerStep(rule, LedgerAfter(rule, ledger, rs), r).1
    ensures Grants(rs, Answers(rule, ledger, rs), r.key) >= n <==>
            Standing(rule, ledger, r.key, from) + Refilled(r.now - from, rule.refill) >= n as real
  {
    hide LedgerStep, Standing;
    GrantFloor(rule, ledger, from, rs, r);
    GrantBound(rule, ledger, from, rs, r.key);
    RefilledMonotone(End(from, rs) - from, r.now - from, rule.refill);
  }

  lemma {:induction false} Fewer<T>(a: set<T>, b: set<T>)
    requires a <= b
    ensures |a| <= |b|
  {
    if a != {} {
      var k :| k in a;
      Fewer(a - {k}, b - {k});
    }
  }

  // ---- Forgetting ----

  /** A table that has dropped only buckets that are full again. */
  ghost predicate Covers<K(!new)>(rule: Rule<K>, table: map<K, Bucket>, ledger: Ledger<K>, now: int)
    requires rule.refill > 0
  {
    && SaneLedger(rule, ledger, now)
    && (forall k :: k in table ==> k in ledger && table[k] == ledger[k])
    && (forall k :: k in ledger && k !in table ==> Level(ledger[k], now, rule.burst(k), rule.refill) == rule.burst(k))
  }

  lemma CoversLater<K(!new)>(rule: Rule<K>, table: map<K, Bucket>, ledger: Ledger<K>, now: int, later: int)
    requires Sensible(rule) && now <= later && Covers(rule, table, ledger, now)
    ensures Covers(rule, table, ledger, later)
  {
    forall k | k in ledger
      ensures Level(ledger[k], now, rule.burst(k), rule.refill)
              <= Level(ledger[k], later, rule.burst(k), rule.refill)
              <= rule.burst(k)
    {
      LevelGrows(ledger[k], now, later, rule.burst(k), rule.refill);
    }
  }

  lemma CoversForgetting<K(!new)>(rule: Rule<K>, table: map<K, Bucket>, ledger: Ledger<K>, now: int,
                                       fewer: map<K, Bucket>)
    requires Sensible(rule) && Covers(rule, table, ledger, now)
    requires forall k :: k in fewer ==> k in table && fewer[k] == table[k]
    requires forall k :: k in table && k !in fewer ==>
                           table[k].tokens + Refilled(now - table[k].seen, rule.refill) >= rule.burst(k)
    ensures Covers(rule, fewer, ledger, now)
  {}

  /** A table that covers the ledger answers the next request as the ledger does. */
  lemma CoversRequest<K(!new)>(rule: Rule<K>, table: map<K, Bucket>, ledger: Ledger<K>, r: Request<K>)
    requires Sensible(rule) && Covers(rule, table, ledger - r.reset, r.now)
    ensures var asked := LedgerStep(rule, ledger, r);
            var (b, ok) := Spend(Lookup(rule, table, r.key, r.now), r.now, rule.burst(r.key), rule.refill);
            asked.1 == ok && Covers(rule, table[r.key := b], asked.0, r.now)
  {
    var kept := ledger - r.reset;
    assert kept - {} == kept;
    LedgerStepSane(rule, kept, r.now, Request(r.key, r.now, {}));
  }

  // ---- Retention ----

  /** While a table holds anything a timer is pending, at most `every` away, and
      whatever the last sweep left was younger than `hold`. */
  ghost predicate Held<K(!new)>(table: map<K, Bucket>, due: Option<int>, clock: int, every: int, hold: int) {
    && (table != map[] ==> due.Some?)
    && (due.Some? ==> clock <= due.value <= clock + every)
    && forall k :: k in table ==> table[k].seen <= clock && due.value - every - table[k].seen <= hold
  }

  /** An event can happen now: a pending timer has not been left waiting. */
  predicate Punctual(due: Option<int>, clock: int, now: int) {
    clock <= now && (due.Some? ==> now <= due.value)
  }

  /** Arming a timer that is not already pending. */
  function Armed(due: Option<int>, now: int, every: int): Option<int> {
    if due.Some? then due else Some(now + every)
  }

  /** What is left after dropping entries stays held, and so does an entry just touched. */
  lemma HeldTouch<K(!new)>(table: map<K, Bucket>, due: Option<int>, clock: int, every: int, hold: int,
                           fewer: map<K, Bucket>, now: int, key: K, b: Bucket)
    requires Held(table, due, clock, every, hold) && Punctual(due, clock, now)
    requires every >= 0 && hold >= 0 && b.seen == now
    requires forall k :: k in fewer ==> k in table && fewer[k] == table[k]
    ensures Held(fewer, due, now, every, hold)
    ensures Held(fewer[key := b], Armed(due, now, every), now, every, hold)
  {
    if fewer != map[] {
      var k :| k in fewer;
      assert k in table;
    }
  }

  lemma HeldAge<K(!new)>(table: map<K, Bucket>, due: Option<int>, clock: int, every: int, hold: int, now: int, key: K)
    requires Held(table, due, clock, every, hold) && Punctual(due, clock, now) && key in table
    ensures now - table[key].seen <= hold + every
  {}
}
