/** The table of signed-in sessions (internal/access/gate.go). */
module Sessions {
  import opened Buckets
  import opened Options
  import opened Bytes

  const SECOND := 1_000_000_000
  const SESSION_LIFE := 12 * 3600 * SECOND
  const MAX_SESSIONS := 32

  type Token = bytes

  /** The hash of a token, and when each session ends. */
  type Id = bytes

  type Table = map<Id, int>

  function Live(table: Table, now: int): Table {
    map id | id in table && now < table[id] :: table[id]
  }

  /** Only as many of the oldest go as make room for one more. */
  ghost predicate RoomFor(live: Table, kept: Table) {
    && (forall id :: id in kept ==> id in live && kept[id] == live[id])
    && |kept| == (if |live| < MAX_SESSIONS then |live| else MAX_SESSIONS - 1)
    && (forall gone, id :: gone in live && gone !in kept && id in kept ==> live[gone] <= live[id])
  }

  /** The table after a sign-in at `now`. */
  ghost predicate Opened(table: Table, id: Id, now: int, next: Table) {
    exists kept :: RoomFor(Live(table, now), kept) && next == kept[id := now + SESSION_LIFE]
  }

  class Gate {
    const hash: Token -> Id
    var key: Option<bytes>
    var sessions: Table

    constructor (hash: Token -> Id)
      ensures this.hash == hash && key == None && sessions == map[]
    {
      this.hash := hash;
      key, sessions := None, map[];
    }

    /** The part of signIn that runs once the password has opened the file. */
    method Open(dataKey: bytes, token: Token, now: int)
      modifies this
      ensures Opened(old(sessions), hash(token), now, sessions)
      ensures key == if old(key).None? then Some(dataKey) else old(key)
    {
      if key.None? {
        key := Some(dataKey);
      }
      DropExpired(now);
      ghost var live := sessions;
      while |sessions| >= MAX_SESSIONS
        invariant key == if old(key).None? then Some(dataKey) else old(key)
        invariant forall id :: id in sessions ==> id in live && sessions[id] == live[id]
        invariant |sessions| == |live| || MAX_SESSIONS - 1 <= |sessions| < |live|
        invariant forall gone, id :: gone in live && gone !in sessions && id in sessions ==> live[gone] <= live[id]
        decreases |sessions|
      {
        var oldest := Oldest();
        ghost var before := sessions;
        sessions := sessions - {oldest};
        assert sessions.Keys == before.Keys - {oldest};
        assert |sessions| == |sessions.Keys| && |before| == |before.Keys|;
      }
      assert |sessions| == |live| ==> sessions == live by {
        if |sessions| == |live| {
          SameSizeSame(sessions.Keys, live.Keys);
          assert |sessions| == |sessions.Keys| && |live| == |live.Keys|;
        }
      }
      assert RoomFor(live, sessions);
      sessions := sessions[hash(token) := now + SESSION_LIFE];
    }

    method DropExpired(now: int)
      modifies this`sessions
      ensures sessions == Live(old(sessions), now)
    {
      var left := sessions.Keys;
      while left != {}
        invariant left <= old(sessions).Keys
        invariant sessions == map id | id in old(sessions) && (id in left || now < old(sessions)[id]) ::
            old(sessions)[id]
        decreases left
      {
        var id :| id in left;
        left := left - {id};
        if now >= sessions[id] {
          sessions := sessions - {id};
        }
      }
    }

    method Oldest() returns (oldest: Id)
      requires sessions != map[]
      ensures oldest in sessions && forall id :: id in sessions ==> sessions[oldest] <= sessions[id]
    {
      var left := sessions.Keys;
      var first: Option<int> := None;
      oldest := [];
      while left != {}
        invariant left <= sessions.Keys
        invariant first.None? ==> left == sessions.Keys
        invariant first.Some? ==> oldest in sessions && sessions[oldest] == first.value
        invariant first.Some? ==> forall id :: id in sessions && id !in left ==> first.value <= sessions[id]
        decreases left
      {
        var id :| id in left;
        left := left - {id};
        if first.None? || sessions[id] < first.value {
          oldest, first := id, Some(sessions[id]);
        }
      }
    }

    method Valid(token: Token, now: int) returns (ok: bool)
      modifies this`sessions
      ensures var id := hash(token);
              ok <==> 0 < |token| <= 128 && id in old(sessions) && now < old(sessions)[id]
      ensures var id := hash(token);
              sessions == if 0 < |token| <= 128 && id in old(sessions) && !ok then old(sessions) - {id}
                          else old(sessions)
    {
      if |token| == 0 || |token| > 128 {
        return false;
      }
      var id := hash(token);
      if id !in sessions {
        return false;
      }
      if now >= sessions[id] {
        sessions := sessions - {id};
        return false;
      }
      return true;
    }

    method Forget(token: Token)
      modifies this`sessions
      ensures sessions == old(sessions) - {hash(token)}
    {
      sessions := sessions - {hash(token)};
    }

    method KeepOnly(token: Token)
      modifies this`sessions
      ensures sessions == map id | id in old(sessions) && id == hash(token) :: old(sessions)[id]
    {
      var left := sessions.Keys;
      while left != {}
        invariant left <= old(sessions).Keys
        invariant sessions == map id | id in old(sessions) && (id in left || id == hash(token)) :: old(sessions)[id]
        decreases left
      {
        var id :| id in left;
        left := left - {id};
        if id != hash(token) {
          sessions := sessions - {id};
        }
      }
    }
  }

  lemma {:induction false} SameSizeSame(a: set<Id>, b: set<Id>)
    requires a <= b && |a| == |b|
    ensures a == b
  {
    if b - a != {} {
      var x :| x in b - a;
      Fewer(a, b - {x});
    } else {
      assert b <= a;
    }
  }

  /** Some session ends no later than the others. */
  lemma {:induction false} OneOldest(table: Table)
    requires table != map[]
    ensures exists id :: id in table && forall other :: other in table ==> table[id] <= table[other]
  {
    var one :| one in table;
    var rest := table - {one};
    if rest == map[] {
      assert forall other :: other in table ==> other == one by {
        assert forall other :: other in table && other != one ==> other in rest;
      }
    } else {
      assert one !in rest && rest.Keys < table.Keys;
      OneOldest(rest);
      var id :| id in rest && forall other :: other in rest ==> rest[id] <= rest[other];
      var oldest := if table[id] <= table[one] then id else one;
      assert forall other :: other in table ==> other == one || other in rest;
      assert oldest in table && forall other :: other in table ==> table[oldest] <= table[other];
    }
  }

  /** Room can be made in any table. */
  lemma {:induction false} RoomCanBeMade(live: Table)
    ensures exists kept :: RoomFor(live, kept)
    decreases |live|
  {
    if |live| < MAX_SESSIONS {
      assert RoomFor(live, live);
    } else {
      OneOldest(live);
      var oldest :| oldest in live && forall other :: other in live ==> live[oldest] <= live[other];
      var rest := live - {oldest};
      assert rest.Keys == live.Keys - {oldest} && |rest| == |rest.Keys| && |live| == |live.Keys|;
      if |rest| < MAX_SESSIONS {
        assert RoomFor(live, rest);
      } else {
        RoomCanBeMade(rest);
        var kept :| RoomFor(rest, kept);
        assert RoomFor(live, kept);
      }
    }
  }

  /** A sign-in leaves at most thirty-two sessions, its own among them. */
  lemma OpenedBounded(table: Table, id: Id, now: int, next: Table)
    requires Opened(table, id, now, next)
    ensures id in next && next[id] == now + SESSION_LIFE && |next| <= MAX_SESSIONS
  {
    var kept :| RoomFor(Live(table, now), kept) && next == kept[id := now + SESSION_LIFE];
    assert next.Keys == kept.Keys + {id};
    assert |next| == |next.Keys| && |kept| == |kept.Keys|;
  }

  /** Sessions that end no earlier than `id` does. */
  function NoOlder(table: Table, id: Id): set<Id>
    requires id in table
  {
    set other | other in table && other != id && table[id] <= table[other]
  }

  /** Somebody else's sign-in ends a live session only when thirty-one others are at
      least as young: a flood pushes out the old before the new. */
  lemma FloodTakesTheOldest(table: Table, id: Id, now: int, next: Table, mine: Id)
    requires Opened(table, id, now, next) && mine in table && now < table[mine]
    requires |NoOlder(Live(table, now), mine)| < MAX_SESSIONS - 1
    ensures mine in next && (mine != id ==> next[mine] == table[mine])
  {
    var live := Live(table, now);
    var kept :| RoomFor(live, kept) && next == kept[id := now + SESSION_LIFE];
    assert |kept| == |kept.Keys| && |live| == |live.Keys|;
    if |live| < MAX_SESSIONS {
      SameSizeSame(kept.Keys, live.Keys);
    } else if mine !in kept {
      assert kept.Keys <= NoOlder(live, mine);
      Fewer(kept.Keys, NoOlder(live, mine));
    }
  }

  // ---- A flood of sign-ins ----

  /** Sign-ins one after another, each under an identifier not in the table. */
  ghost predicate SignIns(tables: seq<Table>, ids: seq<Id>, nows: seq<int>) {
    && |tables| == |ids| + 1 && |nows| == |ids|
    && (forall i :: 0 <= i < |ids| ==> ids[i] !in tables[i] && Opened(tables[i], ids[i], nows[i], tables[i + 1]))
  }

  /** Live throughout, and opened before all of them. */
  predicate Earlier(end: int, nows: seq<int>) {
    forall i :: 0 <= i < |nows| ==> nows[i] < end < nows[i] + SESSION_LIFE
  }

  /** Sessions that end after `end`. */
  function Younger(table: Table, end: int): set<Id> {
    set id | id in table && end < table[id]
  }

  /** No other session ends just when `mine` does. */
  ghost predicate Untied(table: Table, mine: Id) {
    mine in table && forall id :: id in table && id != mine ==> table[id] != table[mine]
  }

  lemma RoomAll(live: Table, kept: Table)
    requires RoomFor(live, kept) && |live| < MAX_SESSIONS
    ensures kept == live
  {
    assert |kept| == |kept.Keys| && |live| == |live.Keys|;
    SameSizeSame(kept.Keys, live.Keys);
  }

  /** A session that stays keeps every younger one with it. */
  lemma YoungerStay(live: Table, kept: Table, mine: Id)
    requires RoomFor(live, kept) && mine in kept
    ensures Younger(live, live[mine]) <= kept.Keys
    ensures |Younger(live, live[mine])| + 1 < MAX_SESSIONS
  {
    var younger := Younger(live, live[mine]);
    if |live| < MAX_SESSIONS {
      RoomAll(live, kept);
    }
    Fewer(younger + {mine}, kept.Keys);
    assert |kept| == |kept.Keys|;
  }

  /** And with no ties it stays if there is room for it and them. */
  lemma RoomForMine(live: Table, kept: Table, mine: Id)
    requires RoomFor(live, kept) && Untied(live, mine) && |Younger(live, live[mine])| + 1 < MAX_SESSIONS
    ensures mine in kept
  {
    assert |kept| == |kept.Keys|;
    if |live| < MAX_SESSIONS {
      RoomAll(live, kept);
    } else if mine !in kept {
      assert kept.Keys <= Younger(live, live[mine]);
      Fewer(kept.Keys, Younger(live, live[mine]));
    }
  }

  /** One more younger session. */
  lemma YoungerMore(kept: Table, id: Id, until: int, end: int)
    requires id !in kept && end < until
    ensures Younger(kept[id := until], end) == Younger(kept, end) + {id} && id !in Younger(kept, end)
  {}

  /** One sign-in while `mine` is live: if `mine` stays, so does every younger session, and
      there is one more of them; with no ties, it stays as long as there is room for it. */
  lemma SignInStep(table: Table, id: Id, now: int, next: Table, mine: Id)
    requires Opened(table, id, now, next) && id !in table && mine in table
    requires now < table[mine] < now + SESSION_LIFE
    ensures mine in next ==>
        next[mine] == table[mine] && |Younger(next, table[mine])| == |Younger(table, table[mine])| + 1
    ensures mine in next && Untied(table, mine) ==> Untied(next, mine)
    ensures mine in next ==> |Younger(table, table[mine])| + 1 < MAX_SESSIONS
    ensures Untied(table, mine) && |Younger(table, table[mine])| + 1 < MAX_SESSIONS ==> mine in next
  {
    var end, live := table[mine], Live(table, now);
    var kept :| RoomFor(live, kept) && next == kept[id := now + SESSION_LIFE];
    KeptFromTable(table, now, kept);
    hide RoomFor, Younger, Live;
    YoungerLive(table, now, end);
    if mine in kept {
      YoungerStay(live, kept, mine);
      YoungerKept(live, kept, mine);
      YoungerMore(kept, id, now + SESSION_LIFE, end);
    } else if Untied(table, mine) && |Younger(table, end)| + 1 < MAX_SESSIONS {
      RoomForMine(live, kept, mine);
    }
  }

  lemma KeptFromTable(table: Table, now: int, kept: Table)
    requires RoomFor(Live(table, now), kept)
    ensures forall id :: id in kept ==> id in table && kept[id] == table[id]
    ensures forall id :: id in Live(table, now) <==> id in table && now < table[id]
    ensures forall id :: id in Live(table, now) ==> Live(table, now)[id] == table[id]
  {}

  lemma YoungerLive(table: Table, now: int, end: int)
    requires now < end
    ensures Younger(Live(table, now), end) == Younger(table, end)
  {}

  lemma YoungerKept(live: Table, kept: Table, mine: Id)
    requires RoomFor(live, kept) && mine in kept && Younger(live, live[mine]) <= kept.Keys
    ensures Younger(kept, live[mine]) == Younger(live, live[mine])
  {}

  lemma {:induction false} FloodKeeps(tables: seq<Table>, ids: seq<Id>, nows: seq<int>, mine: Id, i: nat)
    requires SignIns(tables, ids, nows) && mine in tables[0] && Earlier(tables[0][mine], nows) && i < |tables|
    requires mine !in ids
    ensures mine in tables[i] ==>
              && tables[i][mine] == tables[0][mine]
              && |Younger(tables[i], tables[0][mine])| == |Younger(tables[0], tables[0][mine])| + i
              && (i > 0 ==> |Younger(tables[0], tables[0][mine])| + i < MAX_SESSIONS)
              && (Untied(tables[0], mine) ==> Untied(tables[i], mine))
    ensures Untied(tables[0], mine) && |Younger(tables[0], tables[0][mine])| + i < MAX_SESSIONS ==> mine in tables[i]
  {
    if i > 0 {
      FloodKeeps(tables, ids, nows, mine, i - 1);
      assert Opened(tables[i - 1], ids[i - 1], nows[i - 1], tables[i]);
      if mine in tables[i - 1] {
        SignInStep(tables[i - 1], ids[i - 1], nows[i - 1], tables[i], mine);
      } else {
        NotBack(tables[i - 1], ids[i - 1], nows[i - 1], tables[i], mine);
      }
    }
  }

  lemma NotBack(table: Table, id: Id, now: int, next: Table, mine: Id)
    requires Opened(table, id, now, next) && mine !in table && mine != id
    ensures mine !in next
  {}

  /** An earlier session survives a flood if and only if it, the sessions younger than it and
      the flood fit in the table together, whoever signed in. */
  lemma FloodExact(tables: seq<Table>, ids: seq<Id>, nows: seq<int>, mine: Id)
    requires SignIns(tables, ids, nows) && ids != [] && Untied(tables[0], mine)
    requires Earlier(tables[0][mine], nows) && mine !in ids
    ensures mine in tables[|ids|] <==> 1 + |Younger(tables[0], tables[0][mine])| + |ids| <= MAX_SESSIONS
  {
    FloodKeeps(tables, ids, nows, mine, |ids|);
  }

  /** So thirty-two sign-ins end every session opened before them, ties or none. */
  lemma FloodEndsEarlier(tables: seq<Table>, ids: seq<Id>, nows: seq<int>, mine: Id)
    requires SignIns(tables, ids, nows) && |ids| >= MAX_SESSIONS && mine in tables[0]
    requires Earlier(tables[0][mine], nows) && mine !in ids
    ensures mine !in tables[|ids|]
  {
    FloodKeeps(tables, ids, nows, mine, |ids|);
  }
}
