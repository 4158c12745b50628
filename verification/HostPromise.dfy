/** What a refusal says about one host (internal/httpapi/targetlimit.go): a bucket is shared
    by every name that hashes to it. */
module HostPromise {
  import opened Bytes
  import opened Buckets
  import opened Options
  import opened TargetLimit

  /** What is scanned: a name, however it was spelled, and a port. */
  datatype Target = Target(name: bytes, port: bytes)

  function TargetOf(host: bytes, port: bytes): Target {
    Target(FoldHost(host), port)
  }

  function KeyOf(mac: Mac, t: Target): Key {
    U16(mac(t.name + [0] + t.port), 0)
  }

  /** How many scans of one target a run was granted. */
  function Scans(mac: Mac, s: State, es: seq<Event>, t: Target): nat
    decreases |es|
  {
    if es == [] then 0
    else
      (match es[0]
       case Ask(host, port, now) =>
         if TargetOf(host, port) == t && Allowed(mac, s, BucketFor(mac, host, port), now).1 then 1 else 0
       case Fire(_) => 0)
      + Scans(mac, After(mac, s, es[0]), es[1..], t)
  }

  /** A run that asks for these targets only. */
  ghost predicate Within(es: seq<Event>, targets: set<Target>) {
    forall e :: e in es && e.Ask? ==> TargetOf(e.host, e.port) in targets
  }

  /** No two targets share a bucket. */
  ghost predicate OwnBuckets(mac: Mac, targets: set<Target>) {
    forall t, u :: t in targets && u in targets && KeyOf(mac, t) == KeyOf(mac, u) ==> t == u
  }

  /** Names in lower case, as folding leaves them. */
  ghost predicate Names(targets: set<Target>) {
    forall t :: t in targets ==> Folded(t.name) == t.name
  }

  /** What the bucket of a request could give at `from`. */
  function HeldAt(mac: Mac, s: State, from: int, e: Event): real
    requires e.Ask?
  {
    Standing(RuleOf(mac), s.buckets, BucketFor(mac, e.host, e.port), from)
  }

  predicate FullAt(mac: Mac, s: State, from: int, e: Event) {
    e.Ask? && HeldAt(mac, s, from, e) == BurstFor(mac, BucketFor(mac, e.host, e.port))
  }

  // ---- What a host carries ----

  lemma {:induction false} ScansWithinGrants(mac: Mac, s: State, es: seq<Event>, t: Target)
    ensures |Replies(mac, s, es)| == |Requests(mac, es)|
    ensures Scans(mac, s, es, t) <= Grants(Requests(mac, es), Replies(mac, s, es), KeyOf(mac, t))
    decreases |es|
  {
    hide Allowed, Ticked, FoldHost;
    if es != [] {
      var next := After(mac, s, es[0]);
      ScansWithinGrants(mac, next, es[1..], t);
      match es[0] {
        case Ask(host, port, now) =>
          assert BucketFor(mac, host, port) == KeyOf(mac, TargetOf(host, port));
          assert Requests(mac, es)[1..] == Requests(mac, es[1..]);
          assert Replies(mac, s, es)[1..] == Replies(mac, next, es[1..]);
        case Fire(_) =>
          assert Requests(mac, es) == Requests(mac, es[1..]);
          assert Replies(mac, s, es) == Replies(mac, next, es[1..]);
      }
    }
  }

  /** The load is bounded whoever shares the bucket: ten scans and one more per thirty seconds. */
  lemma HostLoad(mac: Mac, s: State, from: int, es: seq<Event>, t: Target)
    requires InOrder(from, es) && SaneLedger(RuleOf(mac), s.buckets, from)
    ensures Scans(mac, s, es, t) as real <= 10.0 + (Last(from, es) - from) as real / 30_000_000_000.0
  {
    hide Scans, Replies, Requests, Refilled;
    ScansWithinGrants(mac, s, es, t);
    BucketBound(mac, s, from, es, KeyOf(mac, t));
  }

  // ---- A target with a bucket of its own ----

  /** Where nobody else's requests reach the bucket, what it grants is what the target was granted. */
  lemma {:induction false} ScansAreGrants(mac: Mac, s: State, es: seq<Event>, targets: set<Target>, t: Target)
    requires OwnBuckets(mac, targets) && Within(es, targets) && t in targets
    ensures |Replies(mac, s, es)| == |Requests(mac, es)|
    ensures Scans(mac, s, es, t) == Grants(Requests(mac, es), Replies(mac, s, es), KeyOf(mac, t))
    decreases |es|
  {
    hide Allowed, Ticked, FoldHost;
    if es != [] {
      var next := After(mac, s, es[0]);
      ScansAreGrants(mac, next, es[1..], targets, t);
      match es[0] {
        case Ask(host, port, now) =>
          assert TargetOf(host, port) in targets;
          assert BucketFor(mac, host, port) == KeyOf(mac, TargetOf(host, port));
          assert Requests(mac, es)[1..] == Requests(mac, es[1..]);
          assert Replies(mac, s, es)[1..] == Replies(mac, next, es[1..]);
        case Fire(_) =>
          assert Requests(mac, es) == Requests(mac, es[1..]);
          assert Replies(mac, s, es) == Replies(mac, next, es[1..]);
      }
    }
  }

  /** Such a refusal follows eight scans of that very target since its bucket was last full. */
  lemma OwnNeedsEight(mac: Mac, s: State, from: int, es: seq<Event>, e: Event, targets: set<Target>)
    requires e.Ask? && Refusal(mac, s, from, es, e) && OwnBuckets(mac, targets) && Within(es + [e], targets)
    requires FullAt(mac, s, from, e)
    ensures Scans(mac, s, es, TargetOf(e.host, e.port)) >= 8
  {
    hide Refusal, Standing, OwnBuckets, FoldHost;
    WithinLast(es, e, targets);
    RefusedNeedsEight(mac, s, from, es, e);
    ScansAreGrants(mac, s, es, targets, TargetOf(e.host, e.port));
  }

  /** And in any window that ends with it there were eight scans of that target exactly when
      the bucket's standing at the start and what came back make eight; in a window of one
      refill interval, exactly when the standing was seven. */
  lemma OwnWindow(mac: Mac, s: State, from: int, es: seq<Event>, e: Event, targets: set<Target>)
    requires e.Ask? && Refusal(mac, s, from, es, e) && OwnBuckets(mac, targets) && Within(es + [e], targets)
    ensures var scans := Scans(mac, s, es, TargetOf(e.host, e.port));
            var held := HeldAt(mac, s, from, e);
            && (scans >= 8 <==> held + Refilled(e.now - from, REFILL) >= 8.0)
            && (e.now - from == REFILL ==> (scans >= 8 <==> held >= 7.0))
  {
    hide Refusal, Standing, OwnBuckets, FoldHost;
    WithinLast(es, e, targets);
    EightInWindow(mac, s, from, es, e);
    ScansAreGrants(mac, s, es, targets, TargetOf(e.host, e.port));
  }

  lemma WithinLast(es: seq<Event>, e: Event, targets: set<Target>)
    requires Within(es + [e], targets) && e.Ask?
    ensures Within(es, targets) && TargetOf(e.host, e.port) in targets
  {
    assert e in es + [e];
    assert forall f :: f in es ==> f in es + [e];
  }

  // ---- Two targets with one bucket ----

  /** A name as it is asked for: with its last dot, which folding takes away. */
  function Spelled(t: Target): bytes {
    t.name + [DOT]
  }

  lemma SpelledTarget(t: Target)
    requires Folded(t.name) == t.name
    ensures TargetOf(Spelled(t), t.port) == t
  {
    assert Spelled(t)[..|t.name|] == t.name;
  }

  /** `n` requests for one target at the same time. */
  function Flood(t: Target, now: int, n: nat): (es: seq<Event>)
    ensures |es| == n && forall i :: 0 <= i < n ==> es[i] == Ask(Spelled(t), t.port, now)
  {
    seq(n, _ => Ask(Spelled(t), t.port, now))
  }

  function Same(key: Key, now: int, n: nat): (rs: seq<Request<Key>>)
    ensures |rs| == n
  {
    seq(n, _ => Request(key, now, {}))
  }

  lemma {:induction false} FloodRequests(mac: Mac, es: seq<Event>, key: Key, from: int, now: int)
    requires from <= now
    requires forall e :: e in es ==> e.Ask? && BucketFor(mac, e.host, e.port) == key && e.now == now
    ensures Requests(mac, es) == Same(key, now, |es|) && InOrder(from, es)
    decreases |es|
  {
    hide BucketFor;
    if es != [] {
      assert es[0] in es;
      FloodRequests(mac, es[1..], key, now, now);
      assert Same(key, now, |es|) == [Request(key, now, {})] + Same(key, now, |es[1..]|);
      RequestsFirst(mac, es);
    }
  }

  /** What `i` requests at once leave of a full bucket. */
  ghost function Spent(mac: Mac, key: Key, now: int, i: nat): Ledger<Key> {
    if i == 0 then map[] else map[key := Bucket(BurstFor(mac, key) - i as real, now)]
  }

  lemma SpentStep(mac: Mac, key: Key, now: int, i: nat)
    requires i <= Allowance(mac, key)
    ensures var (next, ok) := LedgerStep(RuleOf(mac), Spent(mac, key, now, i), Request(key, now, {}));
            ok == (i < Allowance(mac, key)) && (ok ==> next == Spent(mac, key, now, i + 1))
  {
    hide Allowance;
    var ledger := Spent(mac, key, now, i);
    assert ledger - {} == ledger;
    assert BurstFor(mac, key) == Allowance(mac, key) as real;
  }

  lemma {:induction false} FloodRefused(mac: Mac, key: Key, now: int, i: nat)
    requires i <= Allowance(mac, key)
    ensures var n := Allowance(mac, key) - i;
            !Answers(RuleOf(mac), Spent(mac, key, now, i), Same(key, now, n + 1))[n]
    decreases Allowance(mac, key) - i
  {
    hide LedgerStep, Spent;
    var n := Allowance(mac, key) - i;
    SpentStep(mac, key, now, i);
    assert Same(key, now, n + 1)[1..] == Same(key, now, n);
    if n > 0 {
      FloodRefused(mac, key, now, i + 1);
    }
  }

  /** Requests that all reach one bucket at once, and one more than it holds. */
  lemma BucketEmptied(mac: Mac, es: seq<Event>, e: Event, key: Key, from: int, now: int)
    requires from <= now && |es| == Allowance(mac, key) && e.Ask?
    requires forall f :: f in es + [e] ==> f.Ask? && BucketFor(mac, f.host, f.port) == key && f.now == now
    ensures Refusal(mac, State(map[], Some(from), None), from, es, e)
  {
    hide Allowance, LedgerStep, BucketFor, Spent, Covers, SaneLedger, Replies;
    FloodRequests(mac, es + [e], key, from, now);
    NothingSpent(mac, key, from, now);
    ForgettingChangesNothing(mac, State(map[], Some(from), None), map[], from, es + [e]);
    FloodRefused(mac, key, now, 0);
  }

  /** The run that a shared bucket allows: one target takes all the bucket has, and the first
      request for the other is refused. */
  lemma SharedBucketRefuses(mac: Mac, t: Target, u: Target, from: int, now: int)
    requires Folded(t.name) == t.name && Folded(u.name) == u.name
    requires t != u && KeyOf(mac, t) == KeyOf(mac, u) && from <= now
    ensures var s := State(map[], Some(from), None);
            var es := Flood(t, now, Allowance(mac, KeyOf(mac, t)));
            var e := Ask(Spelled(u), u.port, now);
            && Refusal(mac, s, from, es, e) && FullAt(mac, s, from, e) && Scans(mac, s, es, u) == 0
  {
    hide Allowance, Refusal, Scans, FoldHost;
    var key := KeyOf(mac, t);
    var es, e := Flood(t, now, Allowance(mac, key)), Ask(Spelled(u), u.port, now);
    SpelledTarget(t);
    SpelledTarget(u);
    BucketEmptied(mac, es, e, key, from, now);
    ScansOfOthers(mac, State(map[], Some(from), None), es, u);
  }

  lemma NothingSpent(mac: Mac, key: Key, from: int, now: int)
    ensures Covers(RuleOf(mac), map[], map[], from) && SaneLedger(RuleOf(mac), map[], from)
    ensures Spent(mac, key, now, 0) == map[]
  {}

  lemma {:induction false} ScansOfOthers(mac: Mac, s: State, es: seq<Event>, u: Target)
    requires forall e :: e in es && e.Ask? ==> TargetOf(e.host, e.port) != u
    ensures Scans(mac, s, es, u) == 0
    decreases |es|
  {
    hide Allowed, TargetOf;
    if es != [] {
      assert es[0] in es;
      ScansOfOthers(mac, After(mac, s, es[0]), es[1..], u);
    }
  }

  // ---- When the promise holds ----

  /** Every refusal, on every run over these targets, follows eight granted scans of the
      target that is refused since its bucket was last full. */
  ghost predicate PromiseKept(mac: Mac, targets: set<Target>) {
    forall s, from, es, e ::
      Refusal(mac, s, from, es, e) && Within(es + [e], targets) && FullAt(mac, s, from, e)
      ==> Scans(mac, s, es, TargetOf(e.host, e.port)) >= 8
  }

  /** Every refusal follows eight of them inside the refill interval before it exactly when
      the bucket stood at seven or more as that interval began. */
  ghost predicate IntervalTold(mac: Mac, targets: set<Target>) {
    forall s, from, es, e ::
      Refusal(mac, s, from, es, e) && Within(es + [e], targets) && e.Ask? && e.now - from == REFILL
      ==> (Scans(mac, s, es, TargetOf(e.host, e.port)) >= 8 <==> HeldAt(mac, s, from, e) >= 7.0)
  }

  /** A refusal tells what it is said to tell of its own target, over a set of targets, if and
      only if no two of them share a bucket: eight scans since the bucket was last full, and
      eight inside one interval exactly where that interval began with seven. */
  lemma PromiseExact(mac: Mac, targets: set<Target>)
    requires Names(targets)
    ensures PromiseKept(mac, targets) <==> OwnBuckets(mac, targets)
    ensures IntervalTold(mac, targets) <==> OwnBuckets(mac, targets)
  {
    if OwnBuckets(mac, targets) {
      OwnKept(mac, targets);
    } else {
      var t, u :| t in targets && u in targets && KeyOf(mac, t) == KeyOf(mac, u) && t != u;
      SharedBroken(mac, targets, t, u);
    }
  }

  lemma OwnKept(mac: Mac, targets: set<Target>)
    requires OwnBuckets(mac, targets)
    ensures PromiseKept(mac, targets) && IntervalTold(mac, targets)
  {
    hide Refusal, HeldAt, OwnBuckets, Within, Scans, BucketFor, TargetOf;
    forall s, from, es, e |
      Refusal(mac, s, from, es, e) && Within(es + [e], targets) && FullAt(mac, s, from, e)
      ensures Scans(mac, s, es, TargetOf(e.host, e.port)) >= 8
    {
      OwnNeedsEight(mac, s, from, es, e, targets);
    }
    forall s, from, es, e |
      Refusal(mac, s, from, es, e) && Within(es + [e], targets) && e.Ask? && e.now - from == REFILL
      ensures Scans(mac, s, es, TargetOf(e.host, e.port)) >= 8 <==> HeldAt(mac, s, from, e) >= 7.0
    {
      OwnWindow(mac, s, from, es, e, targets);
    }
  }

  lemma FullSevenAt(mac: Mac, s: State, from: int, e: Event)
    requires e.Ask?
    ensures FullAt(mac, s, from, e) ==> HeldAt(mac, s, from, e) >= 7.0
  {}

  lemma SharedBroken(mac: Mac, targets: set<Target>, t: Target, u: Target)
    requires Names(targets) && t in targets && u in targets && KeyOf(mac, t) == KeyOf(mac, u) && t != u
    ensures !PromiseKept(mac, targets) && !IntervalTold(mac, targets)
  {
    hide Refusal, Standing, Scans, BurstFor;
    FullSevenAt(mac, State(map[], Some(0), None), 0, Ask(Spelled(u), u.port, REFILL));
    var key := KeyOf(mac, t);
    var s, es, e := State(map[], Some(0), None), Flood(t, REFILL, Allowance(mac, key)), Ask(Spelled(u), u.port, REFILL);
    SharedBucketRefuses(mac, t, u, 0, REFILL);
    SpelledTarget(t);
    SpelledTarget(u);
    assert BucketFor(mac, e.host, e.port) == key;
    assert Within(es + [e], targets);
    assert Refusal(mac, s, 0, es, e) && Scans(mac, s, es, TargetOf(e.host, e.port)) == 0;
  }

  /** Sixteen bits keep no more than 65536 targets apart: over more of them the promise is
      broken, whatever the key. */
  lemma {:induction false} TooManyTargets(mac: Mac, targets: set<Target>)
    requires Names(targets) && |targets| > BUCKETS
    ensures !PromiseKept(mac, targets) && !IntervalTold(mac, targets)
  {
    PromiseExact(mac, targets);
    if OwnBuckets(mac, targets) {
      KeysApart(mac, targets);
      AtMost(set t | t in targets :: KeyOf(mac, t), BUCKETS);
    }
  }

  lemma {:induction false} KeysApart(mac: Mac, targets: set<Target>)
    requires OwnBuckets(mac, targets)
    ensures |set t | t in targets :: KeyOf(mac, t)| == |targets|
  {
    if targets != {} {
      var u :| u in targets;
      var rest := targets - {u};
      KeysApart(mac, rest);
      var keys, more := set t | t in targets :: KeyOf(mac, t), set t | t in rest :: KeyOf(mac, t);
      assert keys == more + {KeyOf(mac, u)};
      assert KeyOf(mac, u) !in more;
    }
  }
}
