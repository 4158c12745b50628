/** Sign-in attempts per client address (internal/access/gate.go, allow and sweep). */
module Attempts {
  import opened Buckets
  import opened Options

  const SECOND := 1_000_000_000
  const BURST := 5
  const INTERVAL := 60 * SECOND
  const MAX_TRACKED := 1024
  const FORGOTTEN := BURST * INTERVAL

  type Key = string

  datatype State = State(attempts: map<Key, Bucket>, sweeper: Option<int>)

  const RULE: Rule<Key> := Rule(_ => BURST as real, INTERVAL)

  function Recent(attempts: map<Key, Bucket>, now: int): map<Key, Bucket> {
    map k | k in attempts && now - attempts[k].seen < FORGOTTEN :: attempts[k]
  }

  function Swept(s: State, now: int): State {
    var kept := Recent(s.attempts, now);
    State(kept, if kept != map[] then Armed(s.sweeper, now, INTERVAL) else s.sweeper)
  }

  predicate Flushes(s: State, key: Key) {
    key !in s.attempts && |s.attempts| >= MAX_TRACKED
  }

  /** One attempt. The clock is read at `now`, and again at `later` by the sweep
      that runs before the token is taken. */
  function Allowed(s: State, key: Key, now: int, later: int): (State, bool) {
    var table := if Flushes(s, key) then map[] else s.attempts;
    var (b, ok) := Spend(Lookup(RULE, table, key, now), now, BURST as real, INTERVAL);
    (Swept(s.(attempts := table[key := b]), later), ok)
  }

  function Ticked(s: State, now: int): State {
    Swept(s.(sweeper := None), now)
  }

  function Min(a: real, b: real): real {
    if a <= b then a else b
  }

  lemma TokensAreLevel(b: Bucket, now: int)
    requires Sane(b, now, BURST as real)
    ensures Min(BURST as real, b.tokens + Refilled(now - b.seen, INTERVAL)) == Level(b, now, BURST as real, INTERVAL)
  {}

  /** Spending does not change which entries a sweep drops. */
  lemma RecentSpent(table: map<Key, Bucket>, key: Key, b: Bucket, spent: Bucket, now: int)
    requires b.seen == spent.seen
    ensures var kept := Recent(table[key := b], now);
            Recent(table[key := spent], now) == if key in kept then kept[key := spent] else kept
  {}

  class Gate {
    var attempts: map<Key, Bucket>
    var sweeper: Option<int>

    ghost function View(): State
      reads this
    {
      State(attempts, sweeper)
    }

    constructor ()
      ensures View() == State(map[], None)
    {
      attempts, sweeper := map[], None;
    }

    method SweepLocked(now: int)
      modifies this
      ensures View() == Swept(old(View()), now)
    {
      var left := attempts.Keys;
      while left != {}
        invariant left <= old(attempts).Keys && sweeper == old(sweeper)
        invariant attempts == map k | k in old(attempts) && (k in left || now - old(attempts)[k].seen < FORGOTTEN) ::
            old(attempts)[k]
        decreases left
      {
        var key :| key in left;
        left := left - {key};
        if now - attempts[key].seen >= FORGOTTEN {
          attempts := attempts - {key};
        }
      }
      assert attempts == Recent(old(attempts), now);
      if |attempts| > 0 && sweeper.None? {
        sweeper := Some(now + INTERVAL);
      }
    }

    /** The bucket is spent after the sweep, which may have dropped it from the table:
        then the spending is lost with it. */
    method Allow(key: Key, now: int, later: int) returns (ok: bool)
      requires now <= later
      requires forall k :: k in attempts ==> Sane(attempts[k], now, BURST as real)
      modifies this
      ensures (View(), ok) == Allowed(old(View()), key, now, later)
    {
      ghost var table := if Flushes(View(), key) then map[] else attempts;
      ghost var found := Lookup(RULE, table, key, now);
      TokensAreLevel(found, now);
      if key !in attempts {
        if |attempts| >= MAX_TRACKED {
          attempts := map[];
        }
        attempts := attempts[key := Bucket(BURST as real, now)];
      }
      var b := attempts[key];
      b := Bucket(Min(BURST as real, b.tokens + Refilled(now - b.seen, INTERVAL)), now);
      attempts := attempts[key := b];
      assert attempts == table[key := b];
      SweepLocked(later);
      if b.tokens < 1.0 {
        return false;
      }
      RecentSpent(table, key, b, b.(tokens := b.tokens - 1.0), later);
      b := b.(tokens := b.tokens - 1.0);
      if key in attempts {
        attempts := attempts[key := b];
      }
      return true;
    }

    method Sweep(now: int)
      modifies this
      ensures View() == Ticked(old(View()), now)
    {
      sweeper := None;
      SweepLocked(now);
    }
  }

  // ---- Runs ----

  datatype Event = Ask(key: Key, now: int, later: int) | Fire(at: int)

  function Begins(e: Event): int {
    match e case Ask(_, now, _) => now case Fire(at) => at
  }

  function Ends(e: Event): int {
    match e case Ask(_, _, later) => later case Fire(at) => at
  }

  function After(s: State, e: Event): State {
    match e
    case Ask(key, now, later) => Allowed(s, key, now, later).0
    case Fire(at) => Ticked(s, at)
  }

  function Final(s: State, es: seq<Event>): State
    decreases |es|
  {
    if es == [] then s else Final(After(s, es[0]), es[1..])
  }

  ghost predicate InOrder(from: int, es: seq<Event>)
    decreases |es|
  {
    es == [] || (from <= Begins(es[0]) <= Ends(es[0]) && InOrder(Ends(es[0]), es[1..]))
  }

  function Last(from: int, es: seq<Event>): int
    decreases |es|
  {
    if es == [] then from else Last(Ends(es[0]), es[1..])
  }

  function Replies(s: State, es: seq<Event>): seq<bool>
    decreases |es|
  {
    if es == [] then []
    else
      (match es[0]
       case Ask(key, now, later) => [Allowed(s, key, now, later).1]
       case Fire(_) => [])
      + Replies(After(s, es[0]), es[1..])
  }

  /** A request as the reference sees it: a flush of the table starts everyone again. */
  function Asked(s: State, e: Event): Request<Key>
    requires e.Ask?
  {
    Request(e.key, e.now, if Flushes(s, e.key) then s.attempts.Keys else {})
  }

  function Requests(s: State, es: seq<Event>): seq<Request<Key>>
    decreases |es|
  {
    if es == [] then []
    else (if es[0].Ask? then [Asked(s, es[0])] else []) + Requests(After(s, es[0]), es[1..])
  }

  function Flushed(s: State, es: seq<Event>): nat
    decreases |es|
  {
    if es == [] then 0
    else (if es[0].Ask? && Flushes(s, es[0].key) then 1 else 0) + Flushed(After(s, es[0]), es[1..])
  }

  lemma RecentCovers(table: map<Key, Bucket>, ledger: Ledger<Key>, now: int)
    requires Covers(RULE, table, ledger, now)
    ensures Covers(RULE, Recent(table, now), ledger, now)
  {
    forall k | k in table && k !in Recent(table, now)
      ensures table[k].tokens + Refilled(now - table[k].seen, INTERVAL) >= BURST as real
    {
      RefilledMonotone(FORGOTTEN, now - table[k].seen, INTERVAL);
      RefilledWhole(BURST, INTERVAL);
    }
    CoversForgetting(RULE, table, ledger, now, Recent(table, now));
  }

  lemma AskCovers(s: State, ledger: Ledger<Key>, e: Event)
    requires e.Ask? && e.now <= e.later && Covers(RULE, s.attempts, ledger, e.now)
    ensures var asked := LedgerStep(RULE, ledger, Asked(s, e));
            asked.1 == Allowed(s, e.key, e.now, e.later).1 && Covers(RULE, After(s, e).attempts, asked.0, e.later)
  {
    var r := Asked(s, e);
    var table := if Flushes(s, e.key) then map[] else s.attempts;
    assert ledger - {} == ledger;
    assert Covers(RULE, table, ledger - r.reset, e.now);
    CoversRequest(RULE, table, ledger, r);
    var touched := table[e.key := Spend(Lookup(RULE, table, e.key, e.now), e.now, BURST as real, INTERVAL).0];
    var asked := LedgerStep(RULE, ledger, r).0;
    CoversLater(RULE, touched, asked, e.now, e.later);
    RecentCovers(touched, asked, e.later);
  }

  /** Every answer is the one a limiter that forgets nothing but flushed tables gives. */
  lemma {:induction false} ForgettingChangesNothing(s: State, ledger: Ledger<Key>, from: int, es: seq<Event>)
    requires InOrder(from, es) && Covers(RULE, s.attempts, ledger, from)
    ensures Replies(s, es) == Answers(RULE, ledger, Requests(s, es))
    decreases |es|
  {
    if es != [] {
      var e, next, rest := es[0], After(s, es[0]), es[1..];
      CoversLater(RULE, s.attempts, ledger, from, Begins(e));
      match e {
        case Ask(_, _, _) =>
          AskCovers(s, ledger, e);
          ForgettingChangesNothing(next, LedgerStep(RULE, ledger, Asked(s, e)).0, Ends(e), rest);
          assert Requests(s, es)[1..] == Requests(next, rest);
        case Fire(at) =>
          RecentCovers(s.attempts, ledger, at);
          ForgettingChangesNothing(next, ledger, Ends(e), rest);
          assert Requests(s, es) == Requests(next, rest);
      }
    }
  }

  /** The same requests, when no table was flushed. */
  function Plain(es: seq<Event>): seq<Request<Key>> {
    if es == [] then [] else (if es[0].Ask? then [Request(es[0].key, es[0].now, {})] else []) + Plain(es[1..])
  }

  lemma {:induction false} NothingFlushed(s: State, es: seq<Event>)
    requires Flushed(s, es) == 0
    ensures Requests(s, es) == Plain(es)
    decreases |es|
  {
    if es != [] {
      NothingFlushed(After(s, es[0]), es[1..]);
    }
  }

  /** With no flush the gate answers as a limiter that never forgets anybody. */
  lemma NeverForgets(s: State, ledger: Ledger<Key>, from: int, es: seq<Event>)
    requires InOrder(from, es) && Covers(RULE, s.attempts, ledger, from) && Flushed(s, es) == 0
    ensures Replies(s, es) == Answers(RULE, ledger, Plain(es))
  {
    ForgettingChangesNothing(s, ledger, from, es);
    NothingFlushed(s, es);
  }

  lemma {:induction false} RequestsOrdered(s: State, from: int, es: seq<Event>, key: Key)
    requires InOrder(from, es)
    ensures Ordered(from, Requests(s, es)) && Resets(Requests(s, es), key) <= Flushed(s, es)
    ensures End(from, Requests(s, es)) <= Last(from, es)
    decreases |es|
  {
    if es != [] {
      var e, next, rest := es[0], After(s, es[0]), es[1..];
      var later := Requests(next, rest);
      RequestsOrdered(next, Ends(e), rest, key);
      OrderedEarlier(Begins(e), Ends(e), later);
      match e {
        case Ask(_, _, _) =>
          assert Requests(s, es)[1..] == later;
          assert End(from, Requests(s, es)) == End(Begins(e), later);
        case Fire(_) =>
          assert Requests(s, es) == later;
          OrderedEarlier(from, Begins(e), later);
      }
    }
  }

  lemma {:induction false} BurstsMonotone(m: nat, n: nat, burst: real)
    requires m <= n && burst >= 0.0
    ensures 0.0 <= Bursts(m, burst) <= Bursts(n, burst)
    decreases n
  {
    if m < n {
      BurstsMonotone(m, n - 1, burst);
    } else if m > 0 {
      BurstsMonotone(m - 1, m - 1, burst);
    }
  }

  /** An address is granted five attempts at once, one more per minute, and five more
      for each time the whole table was flushed. */
  lemma WindowBound(s: State, from: int, es: seq<Event>, key: Key)
    requires SaneLedger(RULE, s.attempts, from) && InOrder(from, es)
    ensures |Replies(s, es)| == |Requests(s, es)|
    ensures Grants(Requests(s, es), Replies(s, es), key) as real
            <= 5.0 + (Last(from, es) - from) as real / 60_000_000_000.0 + Bursts(Flushed(s, es), 5.0)
  {
    hide Replies, Requests, InOrder, SaneLedger, Grants, Flushed, Answers, Resets;
    ForgettingChangesNothing(s, s.attempts, from, es);
    RequestsOrdered(s, from, es, key);
    WindowGrants(RULE, s.attempts, from, Last(from, es), Requests(s, es), key);
    BurstsMonotone(Resets(Requests(s, es), key), Flushed(s, es), BURST as real);
  }

  /** No table is flushed while no more than 1024 addresses come. */
  lemma {:induction false} FewNeverFlush(s: State, es: seq<Event>, addresses: set<Key>)
    requires |addresses| <= 1024 && s.attempts.Keys <= addresses
    requires forall e :: e in es && e.Ask? ==> e.key in addresses
    ensures Flushed(s, es) == 0
    decreases |es|
  {
    hide Spend, Lookup, Recent;
    if es != [] {
      var e := es[0];
      assert e in es && |s.attempts| == |s.attempts.Keys|;
      if e.Ask? && Flushes(s, e.key) {
        Fewer(s.attempts.Keys + {e.key}, addresses);
      }
      KeysStay(s, e);
      FewNeverFlush(After(s, e), es[1..], addresses);
    }
  }

  lemma KeysStay(s: State, e: Event)
    ensures After(s, e).attempts.Keys <= s.attempts.Keys + (if e.Ask? then {e.key} else {})
  {
    hide Spend, Lookup;
  }

  // ---- What a refusal tells ----

  lemma {:induction false} LastAsk(s: State, from: int, es: seq<Event>, e: Event)
    requires e.Ask? && InOrder(from, es + [e])
    ensures InOrder(from, es) && Last(from, es) <= e.now
    ensures Requests(s, es + [e]) == Requests(s, es) + [Asked(Final(s, es), e)]
    decreases |es|
  {
    hide After, Asked;
    if es == [] {
      assert es + [e] == [e];
      assert Requests(After(s, e), []) == [];
    } else {
      assert (es + [e])[1..] == es[1..] + [e];
      LastAsk(After(s, es[0]), Ends(es[0]), es[1..], e);
      var first := if es[0].Ask? then [Asked(s, es[0])] else [];
      assert first + (Requests(After(s, es[0]), es[1..]) + [Asked(Final(s, es), e)]) ==
             first + Requests(After(s, es[0]), es[1..]) + [Asked(Final(s, es), e)];
    }
  }

  /** A run from a sane table that ends with the refusal of `e`. */
  ghost predicate Refusal(s: State, from: int, es: seq<Event>, e: Event) {
    && e.Ask? && InOrder(from, es + [e]) && SaneLedger(RULE, s.attempts, from)
    && var answers := Replies(s, es + [e]);
       answers != [] && !answers[|answers| - 1]
  }

  lemma RefusedRun(s: State, from: int, es: seq<Event>, e: Event)
    requires Refusal(s, from, es, e)
    ensures var rs := Requests(s, es);
            && Ordered(from, rs) && End(from, rs) <= e.now && Resets(rs, e.key) <= Flushed(s, es)
            && Replies(s, es) == Answers(RULE, s.attempts, rs)
            && !LedgerStep(RULE, LedgerAfter(RULE, s.attempts, rs), Asked(Final(s, es), e)).1
  {
    hide LedgerStep, Asked;
    var rs := Requests(s, es);
    LastAsk(s, from, es, e);
    RequestsOrdered(s, from, es, e.key);
    ForgettingChangesNothing(s, s.attempts, from, es);
    ForgettingChangesNothing(s, s.attempts, from, es + [e]);
    AnswersLast(RULE, s.attempts, rs, Asked(Final(s, es), e));
  }

  /** An address that is refused was granted at least five attempts since it was last full: nobody else's
      attempts are held against it. */
  lemma RefusedNeedsFive(s: State, from: int, es: seq<Event>, e: Event)
    requires Refusal(s, from, es, e) && Standing(RULE, s.attempts, e.key, from) == 5.0
    ensures |Replies(s, es)| == |Requests(s, es)|
    ensures Grants(Requests(s, es), Replies(s, es), e.key) >= 5
  {
    hide Standing, LedgerStep;
    RefusedRun(s, from, es, e);
    RefusedAfterBurst(RULE, s.attempts, from, Requests(s, es), Asked(Final(s, es), e));
  }

  /** Without a flush a refused address was granted n attempts, up to five, in any window before, if and
      only if what it stood at and one a minute since make n. */
  lemma RefusedExactly(s: State, from: int, es: seq<Event>, e: Event, n: nat)
    requires Refusal(s, from, es, e) && Flushed(s, es) == 0 && n <= 5
    ensures |Replies(s, es)| == |Requests(s, es)|
    ensures Grants(Requests(s, es), Replies(s, es), e.key) >= n <==>
            Standing(RULE, s.attempts, e.key, from) + (e.now - from) as real / 60_000_000_000.0 >= n as real
  {
    hide Standing, LedgerStep;
    RefusedRun(s, from, es, e);
    RefusedGrants(RULE, s.attempts, from, Requests(s, es), Asked(Final(s, es), e), n);
  }

  /** The table never grows past its bound. */
  lemma {:induction false} Bounded(s: State, es: seq<Event>)
    requires |s.attempts| <= 1024
    ensures |Final(s, es).attempts| <= 1024
    decreases |es|
  {
    if es != [] {
      StepBounded(s, es[0]);
      Bounded(After(s, es[0]), es[1..]);
    }
  }

  lemma StepBounded(s: State, e: Event)
    requires |s.attempts| <= MAX_TRACKED
    ensures |After(s, e).attempts| <= MAX_TRACKED
  {
    hide Recent, Spend, Lookup;
    match e
    case Ask(key, now, later) =>
      var table := if Flushes(s, key) then map[] else s.attempts;
      var touched := table[key := Spend(Lookup(RULE, table, key, now), now, BURST as real, INTERVAL).0];
      OneMore(table, key, Spend(Lookup(RULE, table, key, now), now, BURST as real, INTERVAL).0);
      RecentFewer(touched, later);
    case Fire(at) =>
      RecentFewer(s.attempts, at);
  }

  lemma OneMore(table: map<Key, Bucket>, key: Key, b: Bucket)
    ensures |table[key := b]| == |table| + if key in table then 0 else 1
  {
    assert table[key := b].Keys == table.Keys + {key};
    assert |table[key := b]| == |table[key := b].Keys| && |table| == |table.Keys|;
  }

  lemma RecentFewer(table: map<Key, Bucket>, now: int)
    ensures |Recent(table, now)| <= |table|
  {
    var kept := Recent(table, now);
    Fewer(kept.Keys, table.Keys);
    assert |kept| == |kept.Keys| && |table| == |table.Keys|;
  }

  // ---- Retention ----

  ghost predicate Timely(s: State, from: int, es: seq<Event>)
    decreases |es|
  {
    es == [] || (
      && from <= Begins(es[0]) <= Ends(es[0]) && Punctual(s.sweeper, from, Ends(es[0]))
      && (es[0].Fire? ==> s.sweeper == Some(es[0].at))
      && Timely(After(s, es[0]), Ends(es[0]), es[1..]))
  }

  lemma StepHeld(s: State, from: int, e: Event)
    requires Held(s.attempts, s.sweeper, from, INTERVAL, FORGOTTEN - 1)
    requires from <= Begins(e) <= Ends(e) && Punctual(s.sweeper, from, Ends(e)) && (e.Fire? ==> s.sweeper == Some(e.at))
    ensures Held(After(s, e).attempts, After(s, e).sweeper, Ends(e), INTERVAL, FORGOTTEN - 1)
  {
    if e.Ask? {
      var table := if Flushes(s, e.key) then map[] else s.attempts;
      var b := Spend(Lookup(RULE, table, e.key, e.now), e.now, BURST as real, INTERVAL).0;
      assert forall k :: k in After(s, e).attempts ==>
                           (k == e.key && After(s, e).attempts[k].seen == e.now)
                               || (k in table && After(s, e).attempts[k] == table[k]);
    }
  }

  lemma {:induction false} StaysHeld(s: State, from: int, es: seq<Event>)
    requires Held(s.attempts, s.sweeper, from, INTERVAL, FORGOTTEN - 1) && Timely(s, from, es)
    ensures Held(Final(s, es).attempts, Final(s, es).sweeper, Last(from, es), INTERVAL, FORGOTTEN - 1)
    decreases |es|
  {
    if es != [] {
      StepHeld(s, from, es[0]);
      StaysHeld(After(s, es[0]), Ends(es[0]), es[1..]);
    }
  }

  /** With a punctual timer, on every run from an empty table, an address is dropped
      within six minutes of its last attempt, which is what the privacy page says. */
  lemma Retention(start: int, es: seq<Event>, now: int, key: Key)
    requires var s := State(map[], None);
             Timely(s, start, es) && key in Final(s, es).attempts
                 && Punctual(Final(s, es).sweeper, Last(start, es), now)
    ensures var end := Final(State(map[], None), es);
            end.sweeper.Some? && now - end.attempts[key].seen < 360_000_000_000
  {
    var s := State(map[], None);
    StaysHeld(s, start, es);
    HeldAge(Final(s, es).attempts, Final(s, es).sweeper, Last(start, es), INTERVAL, FORGOTTEN - 1, now, key);
  }
}
