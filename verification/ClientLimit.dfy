/** The limiter that protects this service, one bucket per client
    (internal/httpapi/limit.go). */
module ClientLimit {
  import opened Buckets
  import opened Options

  const SECOND := 1_000_000_000
  const SWEEP_EVERY := 60 * SECOND
  const FORCED_SWEEP_EVERY := SECOND

  type Key = string

  /** The settings; a burst and a refill the service defaults when they are not positive. */
  datatype Settings = Settings(burst: int, refill: int, maxKeys: int) {
    predicate Sound() {
      burst >= 1 && refill >= 1
    }

    function IdlePeriod(): int {
      burst * refill * 2
    }

    function RetentionPeriod(): int {
      IdlePeriod() + SWEEP_EVERY
    }

    function Rule(): Rule<Key> {
      Buckets.Rule.Rule(_ => burst as real, refill)
    }
  }

  datatype State = State(buckets: map<Key, Bucket>, lastSweep: Option<int>, lastForced: Option<int>, due: Option<int>)

  predicate Elapsed(last: Option<int>, every: int, now: int) {
    last.None? || now - last.value >= every
  }

  function Swept(c: Settings, s: State, now: int): State {
    if !Elapsed(s.lastSweep, SWEEP_EVERY, now) then s
    else s.(lastSweep := Some(now),
            buckets := map k | k in s.buckets && now - s.buckets[k].seen <= c.IdlePeriod() :: s.buckets[k])
  }

  function Forced(c: Settings, s: State, now: int): State {
    if Elapsed(s.lastForced, FORCED_SWEEP_EVERY, now)
    then Swept(c, s.(lastForced := Some(now), lastSweep := None), now)
    else s
  }

  /** Room for one more entry: `victim` is the entry map iteration happened to yield. */
  function RoomMade(c: Settings, s: State, now: int, victim: Option<Key>): State {
    var f := Forced(c, s, now);
    if |f.buckets| < c.maxKeys || victim.None? then f else f.(buckets := f.buckets - {victim.value})
  }

  /** Exactly when the forced sweep leaves a full map is one of its entries dropped. */
  predicate VictimFits(c: Settings, s: State, now: int, victim: Option<Key>) {
    var f := Forced(c, s, now);
    match victim
    case None => |f.buckets| < c.maxKeys || f.buckets == map[]
    case Some(v) => |f.buckets| >= c.maxKeys && v in f.buckets
  }

  predicate NeedsRoom(c: Settings, s: State, key: Key) {
    key !in s.buckets && |s.buckets| >= c.maxKeys
  }

  /** The map as the lookup finds it. */
  function Readied(c: Settings, s0: State, key: Key, now: int, victim: Option<Key>): State {
    var s := Swept(c, s0, now);
    if NeedsRoom(c, s, key) then RoomMade(c, s, now, victim) else s
  }

  function Allowed(c: Settings, s0: State, key: Key, now: int, victim: Option<Key>): (State, bool)
    requires c.Sound()
  {
    var s := Readied(c, s0, key, now, victim);
    if key in s.buckets then
      var (b, ok) := Spend(s.buckets[key], now, c.burst as real, c.refill);
      (s.(buckets := s.buckets[key := b]), ok)
    else if |s.buckets| >= c.maxKeys then (s, false)
    else (s.(buckets := s.buckets[key := Bucket((c.burst - 1) as real, now)], due := Armed(s.due, now, SWEEP_EVERY)),
        true)
  }

  predicate Legal(c: Settings, s0: State, key: Key, now: int, victim: Option<Key>) {
    var s := Swept(c, s0, now);
    if NeedsRoom(c, s, key) then VictimFits(c, s, now, victim) else victim.None?
  }

  function Ticked(c: Settings, s0: State, now: int): State {
    var s := Swept(c, s0.(lastSweep := None), now);
    s.(due := if s.buckets != map[] then Some(now + SWEEP_EVERY) else None)
  }

  class Limiter {
    const c: Settings
    var buckets: map<Key, Bucket>
    var lastSweep: Option<int>
    var lastForced: Option<int>
    var due: Option<int>

    ghost function View(): State
      reads this
    {
      State(buckets, lastSweep, lastForced, due)
    }

    constructor (c: Settings, now: int)
      ensures this.c == c && View() == State(map[], Some(now), None, None)
    {
      this.c := c;
      buckets, lastSweep, lastForced, due := map[], Some(now), None, None;
    }

    method Sweep(now: int)
      modifies this
      ensures View() == Swept(c, old(View()), now)
    {
      if lastSweep.Some? && now - lastSweep.value < SWEEP_EVERY {
        return;
      }
      lastSweep := Some(now);
      var idle := c.IdlePeriod();
      var left := buckets.Keys;
      while left != {}
        invariant left <= old(buckets).Keys
        invariant lastSweep == Some(now) && lastForced == old(lastForced) && due == old(due)
        invariant buckets == map k | k in old(buckets) && (k in left || now - old(buckets)[k].seen <= idle) ::
            old(buckets)[k]
        decreases left
      {
        var key :| key in left;
        left := left - {key};
        if now - buckets[key].seen > idle {
          buckets := buckets - {key};
        }
      }
    }

    method MakeRoom(now: int) returns (victim: Option<Key>)
      modifies this
      ensures VictimFits(c, old(View()), now, victim)
      ensures View() == RoomMade(c, old(View()), now, victim)
    {
      victim := None;
      if lastForced.None? || now - lastForced.value >= FORCED_SWEEP_EVERY {
        lastForced := Some(now);
        lastSweep := None;
        Sweep(now);
      }
      if |buckets| < c.maxKeys {
        return;
      }
      if buckets.Keys != {} {
        var key :| key in buckets.Keys;
        buckets := buckets - {key};
        victim := Some(key);
      }
    }

    method Allow(key: Key, now: int) returns (ok: bool, victim: Option<Key>)
      requires c.Sound()
      modifies this
      ensures Legal(c, old(View()), key, now, victim)
      ensures (View(), ok) == Allowed(c, old(View()), key, now, victim)
    {
      victim := None;
      Sweep(now);
      if key !in buckets {
        if |buckets| >= c.maxKeys {
          victim := MakeRoom(now);
        }
        if |buckets| >= c.maxKeys {
          return false, victim;
        }
        buckets := buckets[key := Bucket((c.burst - 1) as real, now)];
        if due.None? {
          due := Some(now + SWEEP_EVERY);
        }
        return true, victim;
      }
      var b := buckets[key];
      var elapsed := now - b.seen;
      if elapsed > 0 {
        b := b.(tokens := b.tokens + Refilled(elapsed, c.refill));
        if b.tokens > c.burst as real {
          b := b.(tokens := c.burst as real);
        }
      }
      b := b.(seen := now);
      ghost var before := buckets;
      buckets := buckets[key := b];
      if b.tokens < 1.0 {
        return false, victim;
      }
      buckets := buckets[key := b.(tokens := b.tokens - 1.0)];
      assert buckets == before[key := b.(tokens := b.tokens - 1.0)];
      return true, victim;
    }

    method IdleTick(now: int)
      modifies this
      ensures View() == Ticked(c, old(View()), now)
    {
      due := None;
      lastSweep := None;
      Sweep(now);
      if |buckets| > 0 {
        due := Some(now + SWEEP_EVERY);
      }
    }
  }

  // ---- Runs ----

  datatype Event = Ask(key: Key, now: int, victim: Option<Key>) | Fire(now: int)

  function After(c: Settings, s: State, e: Event): State
    requires c.Sound()
  {
    match e
    case Ask(key, now, victim) => Allowed(c, s, key, now, victim).0
    case Fire(now) => Ticked(c, s, now)
  }

  function Final(c: Settings, s: State, es: seq<Event>): State
    requires c.Sound()
    decreases |es|
  {
    if es == [] then s else Final(c, After(c, s, es[0]), es[1..])
  }

  /** A run: the clock never goes back, and evictions take entries the map holds. */
  ghost predicate Run(c: Settings, s: State, from: int, es: seq<Event>)
    requires c.Sound()
    decreases |es|
  {
    es == [] || (
      && from <= es[0].now
      && (es[0].Ask? ==> Legal(c, s, es[0].key, es[0].now, es[0].victim))
      && Run(c, After(c, s, es[0]), es[0].now, es[1..]))
  }

  function Replies(c: Settings, s: State, es: seq<Event>): seq<bool>
    requires c.Sound()
    decreases |es|
  {
    if es == [] then []
    else
      (match es[0]
       case Ask(key, now, victim) => [Allowed(c, s, key, now, victim).1]
       case Fire(_) => [])
      + Replies(c, After(c, s, es[0]), es[1..])
  }

  /** A request as the reference sees it: an evicted key starts again. */
  function Asked(e: Event): Request<Key>
    requires e.Ask?
  {
    Request(e.key, e.now, if e.victim.Some? then {e.victim.value} else {})
  }

  function Requests(es: seq<Event>): seq<Request<Key>> {
    if es == [] then [] else (if es[0].Ask? then [Asked(es[0])] else []) + Requests(es[1..])
  }

  function Last(from: int, es: seq<Event>): int
    decreases |es|
  {
    if es == [] then from else Last(es[0].now, es[1..])
  }

  /** How often a key was evicted to make room. */
  function Evictions(es: seq<Event>, key: Key): nat {
    if es == [] then 0
    else (if es[0].Ask? && es[0].victim == Some(key) then 1 else 0) + Evictions(es[1..], key)
  }

  predicate Bounded(c: Settings, s: State) {
    |s.buckets| <= if c.maxKeys > 0 then c.maxKeys else 0
  }

  lemma SweptSmaller(c: Settings, s: State, now: int)
    ensures |Swept(c, s, now).buckets| <= |s.buckets|
    ensures forall k :: k in Swept(c, s, now).buckets ==> k in s.buckets
  {
    var kept := Swept(c, s, now).buckets;
    Fewer(kept.Keys, s.buckets.Keys);
    assert |kept| == |kept.Keys| && |s.buckets| == |s.buckets.Keys|;
  }

  lemma RoomMadeSize(c: Settings, s: State, now: int, victim: Option<Key>)
    requires Bounded(c, s) && VictimFits(c, s, now, victim)
    ensures Bounded(c, RoomMade(c, s, now, victim))
    ensures c.maxKeys >= 1 ==> |RoomMade(c, s, now, victim).buckets| < c.maxKeys
  {
    SweptSmaller(c, s.(lastForced := Some(now), lastSweep := None), now);
    var f := Forced(c, s, now).buckets;
    if victim.Some? {
      var r := f - {victim.value};
      assert r.Keys == f.Keys - {victim.value};
      assert |r| == |r.Keys| && |f| == |f.Keys|;
    }
  }

  /** The map never holds more than maxKeys entries, and a client it does not hold is
      admitted exactly when it may hold any: eviction has replaced refusal. */
  lemma NewClientAdmitted(c: Settings, s: State, key: Key, now: int, victim: Option<Key>)
    requires c.Sound() && Bounded(c, s) && Legal(c, s, key, now, victim)
    ensures Bounded(c, Allowed(c, s, key, now, victim).0)
    ensures key !in Swept(c, s, now).buckets ==> Allowed(c, s, key, now, victim).1 == (c.maxKeys >= 1)
  {
    var kept := Swept(c, s, now);
    SweptSmaller(c, s, now);
    if NeedsRoom(c, kept, key) {
      RoomMadeSize(c, kept, now, victim);
    }
    if key in kept.buckets {
      var next := Allowed(c, s, key, now, victim).0.buckets;
      assert next.Keys == kept.buckets.Keys;
      assert |next| == |next.Keys| && |kept.buckets| == |kept.buckets.Keys|;
    }
  }

  lemma SweptCovers(c: Settings, s: State, ledger: Ledger<Key>, now: int)
    requires c.Sound() && Covers(c.Rule(), s.buckets, ledger, now)
    ensures Covers(c.Rule(), Swept(c, s, now).buckets, ledger, now)
  {
    var kept := Swept(c, s, now).buckets;
    forall k | k in s.buckets && k !in kept
      ensures s.buckets[k].tokens + Refilled(now - s.buckets[k].seen, c.refill) >= c.burst as real
    {
      RefilledMonotone(2 * c.burst * c.refill, now - s.buckets[k].seen, c.refill);
      RefilledWhole(2 * c.burst, c.refill);
    }
    CoversForgetting(c.Rule(), s.buckets, ledger, now, kept);
  }

  lemma ReadiedCovers(c: Settings, s: State, ledger: Ledger<Key>, e: Event)
    requires c.Sound() && Covers(c.Rule(), s.buckets, ledger, e.now)
    requires e.Ask? && Legal(c, s, e.key, e.now, e.victim)
    ensures Covers(c.Rule(), Readied(c, s, e.key, e.now, e.victim).buckets, ledger - Asked(e).reset, e.now)
  {
    var kept := Swept(c, s, e.now);
    SweptCovers(c, s, ledger, e.now);
    if NeedsRoom(c, kept, e.key) {
      SweptCovers(c, kept.(lastForced := Some(e.now), lastSweep := None), ledger, e.now);
    }
  }

  /** Where there is room, a client the map does not hold starts with a full bucket. */
  lemma AllowedSpends(c: Settings, s: State, key: Key, now: int, victim: Option<Key>)
    requires c.Sound()
    requires var r := Readied(c, s, key, now, victim).buckets;
             key in r || |r| < c.maxKeys
    ensures var r := Readied(c, s, key, now, victim).buckets;
            var (b, ok) := Spend(Lookup(c.Rule(), r, key, now), now, c.burst as real, c.refill);
            Allowed(c, s, key, now, victim).1 == ok && Allowed(c, s, key, now, victim).0.buckets == r[key := b]
  {}

  lemma RoomReadied(c: Settings, s: State, key: Key, now: int, victim: Option<Key>)
    requires c.maxKeys >= 1 && Bounded(c, s) && Legal(c, s, key, now, victim)
    ensures var r := Readied(c, s, key, now, victim).buckets;
            key in r || |r| < c.maxKeys
  {
    SweptSmaller(c, s, now);
    if NeedsRoom(c, Swept(c, s, now), key) {
      RoomMadeSize(c, Swept(c, s, now), now, victim);
    }
  }

  lemma AskCovers(c: Settings, s: State, ledger: Ledger<Key>, e: Event)
    requires c.Sound() && c.maxKeys >= 1 && Bounded(c, s)
    requires e.Ask? && Legal(c, s, e.key, e.now, e.victim) && Covers(c.Rule(), s.buckets, ledger, e.now)
    ensures var asked := LedgerStep(c.Rule(), ledger, Asked(e));
            asked.1 == Allowed(c, s, e.key, e.now, e.victim).1
                && Covers(c.Rule(), After(c, s, e).buckets, asked.0, e.now)
  {
    RoomReadied(c, s, e.key, e.now, e.victim);
    AllowedSpends(c, s, e.key, e.now, e.victim);
    ReadiedCovers(c, s, ledger, e);
    CoversRequest(c.Rule(), Readied(c, s, e.key, e.now, e.victim).buckets, ledger, Asked(e));
  }

  /** Every answer is the one a limiter that forgets nothing but evicted keys gives. */
  lemma {:induction false} ForgettingChangesNothing(c: Settings, s: State, ledger: Ledger<Key>, from: int,
                                                    es: seq<Event>)
    requires c.Sound() && c.maxKeys >= 1 && Bounded(c, s)
    requires Run(c, s, from, es) && Covers(c.Rule(), s.buckets, ledger, from)
    ensures Replies(c, s, es) == Answers(c.Rule(), ledger, Requests(es))
    ensures Bounded(c, Final(c, s, es))
    decreases |es|
  {
    if es != [] {
      var e := es[0];
      CoversLater(c.Rule(), s.buckets, ledger, from, e.now);
      match e {
        case Ask(key, now, victim) =>
          AskCovers(c, s, ledger, e);
          NewClientAdmitted(c, s, key, now, victim);
          var r := Asked(e);
          ForgettingChangesNothing(c, After(c, s, e), LedgerStep(c.Rule(), ledger, r).0, now, es[1..]);
          assert Requests(es) == [r] + Requests(es[1..]);
        case Fire(now) =>
          SweptCovers(c, s.(lastSweep := None), ledger, now);
          SweptSmaller(c, s.(lastSweep := None), now);
          ForgettingChangesNothing(c, After(c, s, e), ledger, now, es[1..]);
          assert Requests(es) == Requests(es[1..]);
      }
    }
  }

  lemma {:induction false} RequestsOrdered(c: Settings, s: State, from: int, es: seq<Event>, key: Key)
    requires c.Sound() && Run(c, s, from, es)
    ensures Ordered(from, Requests(es)) && Resets(Requests(es), key) == Evictions(es, key)
    ensures End(from, Requests(es)) <= Last(from, es)
    decreases |es|
  {
    if es != [] {
      var now, rest := es[0].now, Requests(es[1..]);
      RequestsOrdered(c, After(c, s, es[0]), now, es[1..], key);
      match es[0] {
        case Ask(_, _, _) =>
          assert Requests(es)[1..] == rest;
          assert End(from, Requests(es)) == End(now, rest);
        case Fire(_) =>
          assert Requests(es) == rest;
          OrderedEarlier(from, now, rest);
      }
    }
  }

  /** In any window a client is granted at most its burst, one request per refill
      interval, and one further burst for each time it was evicted. */
  lemma WindowBound(c: Settings, s: State, from: int, es: seq<Event>, key: Key)
    requires c.Sound() && c.maxKeys >= 1 && Bounded(c, s)
    requires SaneLedger(c.Rule(), s.buckets, from) && Run(c, s, from, es)
    ensures |Replies(c, s, es)| == |Requests(es)|
    ensures Grants(Requests(es), Replies(c, s, es), key) as real
            <= c.burst as real + Refilled(Last(from, es) - from, c.refill) + Bursts(Evictions(es, key), c.burst as real)
  {
    hide Replies, Run, Bounded, Bursts, Refilled, Grants, Requests, SaneLedger;
    ForgettingChangesNothing(c, s, s.buckets, from, es);
    RequestsOrdered(c, s, from, es, key);
    WindowGrants(c.Rule(), s.buckets, from, Last(from, es), Requests(es), key);
  }

  // ---- How often a full map is gone through ----

  /** The requests of a run at which room was made by going through the whole map. */
  function ForcedAt(c: Settings, s: State, es: seq<Event>): seq<int>
    requires c.Sound()
    decreases |es|
  {
    if es == [] then []
    else
      (if es[0].Ask? && NeedsRoom(c, Swept(c, s, es[0].now), es[0].key)
          && Elapsed(s.lastForced, FORCED_SWEEP_EVERY, es[0].now) then [es[0].now] else [])
      + ForcedAt(c, After(c, s, es[0]), es[1..])
  }

  lemma ReadiedForced(c: Settings, s: State, key: Key, now: int, victim: Option<Key>)
    ensures var last := Readied(c, s, key, now, victim).lastForced;
            if NeedsRoom(c, Swept(c, s, now), key) && Elapsed(s.lastForced, FORCED_SWEEP_EVERY, now)
            then last == Some(now) else last == s.lastForced
  {
    hide NeedsRoom;
  }

  lemma ForcedNext(c: Settings, s: State, e: Event)
    requires c.Sound()
    ensures var last := After(c, s, e).lastForced;
            if e.Ask? && NeedsRoom(c, Swept(c, s, e.now), e.key) && Elapsed(s.lastForced, FORCED_SWEEP_EVERY, e.now)
            then last == Some(e.now) else last == s.lastForced
  {
    hide NeedsRoom, Readied, Spend, Elapsed;
    if e.Ask? {
      ReadiedForced(c, s, e.key, e.now, e.victim);
    }
  }

  /** However many clients come to a full map, it is gone through for them no more than once a second. */
  lemma {:induction false} ForcedApart(c: Settings, s: State, es: seq<Event>)
    requires c.Sound()
    ensures var times := ForcedAt(c, s, es);
            && (s.lastForced.Some? && times != [] ==> times[0] - s.lastForced.value >= 1_000_000_000)
            && forall i :: 0 <= i < |times| - 1 ==> times[i + 1] - times[i] >= 1_000_000_000
    decreases |es|
  {
    hide After, Swept, NeedsRoom;
    if es != [] {
      ForcedNext(c, s, es[0]);
      ForcedApart(c, After(c, s, es[0]), es[1..]);
    }
  }

  // ---- What a refusal tells ----

  lemma {:induction false} LastAsk(c: Settings, s: State, from: int, es: seq<Event>, e: Event)
    requires c.Sound() && e.Ask? && Run(c, s, from, es + [e])
    ensures Run(c, s, from, es) && Last(from, es) <= e.now
    ensures Requests(es + [e]) == Requests(es) + [Asked(e)]
    decreases |es|
  {
    hide After, Asked;
    if es == [] {
      assert es + [e] == [e];
      assert Requests([]) == [];
    } else {
      assert (es + [e])[1..] == es[1..] + [e];
      LastAsk(c, After(c, s, es[0]), es[0].now, es[1..], e);
      var first := if es[0].Ask? then [Asked(es[0])] else [];
      assert first + (Requests(es[1..]) + [Asked(e)]) == first + Requests(es[1..]) + [Asked(e)];
    }
  }

  /** A run from a sane map that ends with the refusal of `e`. */
  ghost predicate Refusal(c: Settings, s: State, from: int, es: seq<Event>, e: Event) {
    && c.Sound() && c.maxKeys >= 1 && Bounded(c, s) && SaneLedger(c.Rule(), s.buckets, from)
    && e.Ask? && Run(c, s, from, es + [e])
    && var answers := Replies(c, s, es + [e]);
       answers != [] && !answers[|answers| - 1]
  }

  lemma RefusedRun(c: Settings, s: State, from: int, es: seq<Event>, e: Event)
    requires Refusal(c, s, from, es, e)
    ensures var rs := Requests(es);
            && Ordered(from, rs) && End(from, rs) <= e.now && Resets(rs, e.key) == Evictions(es, e.key)
            && Replies(c, s, es) == Answers(c.Rule(), s.buckets, rs)
            && !LedgerStep(c.Rule(), LedgerAfter(c.Rule(), s.buckets, rs), Asked(e)).1
  {
    hide LedgerStep, Asked;
    LastAsk(c, s, from, es, e);
    RequestsOrdered(c, s, from, es, e.key);
    ForgettingChangesNothing(c, s, s.buckets, from, es);
    ForgettingChangesNothing(c, s, s.buckets, from, es + [e]);
    AnswersLast(c.Rule(), s.buckets, Requests(es), Asked(e));
  }

  /** A client that is refused was granted its whole burst since it last had it: no other client's requests
      are held against it. */
  lemma RefusedAfterOwnBurst(c: Settings, s: State, from: int, es: seq<Event>, e: Event)
    requires Refusal(c, s, from, es, e) && Standing(c.Rule(), s.buckets, e.key, from) == c.burst as real
    ensures |Replies(c, s, es)| == |Requests(es)|
    ensures Grants(Requests(es), Replies(c, s, es), e.key) >= c.burst
  {
    hide Standing, LedgerStep;
    RefusedRun(c, s, from, es, e);
    RefusedAfterBurst(c.Rule(), s.buckets, from, Requests(es), Asked(e));
  }

  /** A refused client that was not evicted was granted n requests, up to its burst, in any window before,
      if and only if what it stood at and one per refill interval since make n. */
  lemma RefusedExactly(c: Settings, s: State, from: int, es: seq<Event>, e: Event, n: nat)
    requires Refusal(c, s, from, es, e) && Evictions(es, e.key) == 0 && n <= c.burst
    ensures |Replies(c, s, es)| == |Requests(es)|
    ensures Grants(Requests(es), Replies(c, s, es), e.key) >= n <==>
            Standing(c.Rule(), s.buckets, e.key, from) + (e.now - from) as real / c.refill as real >= n as real
  {
    hide Standing, LedgerStep;
    RefusedRun(c, s, from, es, e);
    RefusedGrants(c.Rule(), s.buckets, from, Requests(es), Asked(e), n);
  }

  // ---- Retention ----

  /** A run on which the pending timer fires when it is due. */
  ghost predicate Timely(c: Settings, s: State, from: int, es: seq<Event>)
    requires c.Sound()
    decreases |es|
  {
    es == [] || (
      && Punctual(s.due, from, es[0].now)
      && (es[0].Fire? ==> s.due == Some(es[0].now))
      && (es[0].Ask? ==> Legal(c, s, es[0].key, es[0].now, es[0].victim))
      && Timely(c, After(c, s, es[0]), es[0].now, es[1..]))
  }

  lemma ReadiedFewer(c: Settings, s: State, key: Key, now: int, victim: Option<Key>)
    ensures var r := Readied(c, s, key, now, victim);
            r.due == s.due && forall k :: k in r.buckets ==> k in s.buckets && r.buckets[k] == s.buckets[k]
  {}

  lemma IdleNotNegative(c: Settings)
    requires c.Sound()
    ensures c.IdlePeriod() >= 0
  {
    assert c.burst * c.refill >= 0;
  }

  lemma StepHeld(c: Settings, s: State, from: int, e: Event)
    requires c.Sound() && Held(s.buckets, s.due, from, SWEEP_EVERY, c.IdlePeriod())
    requires Punctual(s.due, from, e.now) && (e.Fire? ==> s.due == Some(e.now))
    ensures Held(After(c, s, e).buckets, After(c, s, e).due, e.now, SWEEP_EVERY, c.IdlePeriod())
  {
    IdleNotNegative(c);
    if e.Ask? {
      var r := Readied(c, s, e.key, e.now, e.victim).buckets;
      ReadiedFewer(c, s, e.key, e.now, e.victim);
      var touched := if e.key in After(c, s, e).buckets then After(c, s, e).buckets[e.key] else Bucket(0.0, e.now);
      HeldTouch(s.buckets, s.due, from, SWEEP_EVERY, c.IdlePeriod(), r, e.now, e.key, touched.(seen := e.now));
    }
  }

  lemma {:induction false} StaysHeld(c: Settings, s: State, from: int, es: seq<Event>)
    requires c.Sound() && Held(s.buckets, s.due, from, SWEEP_EVERY, c.IdlePeriod()) && Timely(c, s, from, es)
    ensures var end := Final(c, s, es);
            Held(end.buckets, end.due, Last(from, es), SWEEP_EVERY, c.IdlePeriod())
    decreases |es|
  {
    if es != [] {
      StepHeld(c, s, from, es[0]);
      StaysHeld(c, After(c, s, es[0]), es[0].now, es[1..]);
    }
  }

  /** With a punctual timer, on every run from an empty limiter, a client that is held
      has a timer pending and is never held longer than RetentionPeriod after its
      last request. */
  lemma Retention(c: Settings, start: int, es: seq<Event>, now: int, key: Key)
    requires c.Sound()
    requires var s := State(map[], Some(start), None, None);
             && Timely(c, s, start, es)
             && key in Final(c, s, es).buckets && Punctual(Final(c, s, es).due, Last(start, es), now)
    ensures var end := Final(c, State(map[], Some(start), None, None), es);
            && end.due.Some?
            && now - end.buckets[key].seen <= c.RetentionPeriod() == 2 * (c.burst * c.refill) + 60_000_000_000
  {
    hide Final, Timely, Held;
    var s := State(map[], Some(start), None, None);
    StaysHeld(c, s, start, es);
    var end := Final(c, s, es);
    IdleTwice(c);
    HeldAge(end.buckets, end.due, Last(start, es), SWEEP_EVERY, c.IdlePeriod(), now, key);
  }

  lemma IdleTwice(c: Settings)
    ensures c.IdlePeriod() == 2 * (c.burst * c.refill)
  {}
}
