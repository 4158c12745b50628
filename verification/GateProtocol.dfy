/** Sign-ins, sign-outs and password changes interleaved (internal/access/gate.go).

    Every step below is what one request does between two points where another may run:
    under the mutex, or one operation on the access file. The derivation slot is a
    channel of one place, taken before the file is read and given back at the end.
 */
module GateProtocol {
  import opened Buckets
  import opened Options
  import opened Bytes
  import opened AccessFile
  import opened Sessions

  type Rid = nat

  /** Where a request stands. */
  datatype Phase =
    | SignInWaits(password: string)
    | SignInDerives(password: string)
    | SignInOpens(password: string, key: DataKey)
    | ChangeArrives(session: Id, current: string, next: string)
    | ChangeWaits(session: Id, current: string, next: string)
    | ChangeDerives(session: Id, current: string, next: string)
    | ChangeSaves(session: Id, next: string, key: DataKey)
    | ChangeSaved(session: Id)
    | Leaves
    | Answered
  {
    /** Whether the request holds the derivation slot. */
    predicate Holds() {
      SignInDerives? || SignInOpens? || ChangeDerives? || ChangeSaves? || ChangeSaved? || Leaves?
    }
  }

  /** A session, and for the record the password it was opened with. */
  datatype Session = Session(until: int, openedWith: string)

  datatype Gate = Gate(
    disk: Disk,
    key: Option<bytes>,
    sessions: map<Id, Session>,
    slot: Option<Rid>,
    requests: map<Rid, Phase>,
    changer: Option<Id>)  // for the record: the session that made the last change

  datatype Step =
    | Arrive(rid: Rid, phase: Phase)
    | GiveUp(rid: Rid)
    | Take(rid: Rid)
    | Derive(rid: Rid)
    | Abandon(rid: Rid)
    | OpenSession(rid: Rid, id: Id, now: int)
    | CheckSession(rid: Rid, now: int)
    | Save(rid: Rid, salt: bytes, nonce: bytes, saved: bool)
    | EndOthers(rid: Rid)
    | Release(rid: Rid)
    | SignOut(id: Id)
    | Expire(id: Id, now: int)

  function Ends(sessions: map<Id, Session>): Table {
    map id | id in sessions :: sessions[id].until
  }

  function At(g: Gate, rid: Rid, phase: Phase): Gate {
    g.(requests := g.requests[rid := phase])
  }

  /** The table after a sign-in, with the password it was made with on record. */
  ghost predicate OpenedWith(sessions: map<Id, Session>, id: Id, now: int, password: string, next: map<Id, Session>) {
    && Opened(Ends(sessions), id, now, Ends(next))
    && id in next && next[id].openedWith == password
    && forall other :: other in next && other != id ==> other in sessions && next[other] == sessions[other]
  }

  ghost predicate Next(g: Gate, s: Step, h: Gate) {
    match s
    case Arrive(rid, phase) =>
      && rid !in g.requests && (phase.SignInWaits? || phase.ChangeArrives?)
      && h == At(g, rid, phase)
    case GiveUp(rid) =>
      && rid in g.requests && (g.requests[rid].SignInWaits? || g.requests[rid].ChangeWaits?)
      && h == At(g, rid, Answered)
    case Take(rid) =>
      && rid in g.requests && g.slot.None?
      && (match g.requests[rid]
          case SignInWaits(password) => h == At(g, rid, SignInDerives(password)).(slot := Some(rid))
          case ChangeWaits(session, current, next) =>
            h == At(g, rid, ChangeDerives(session, current, next)).(slot := Some(rid))
          case _ => false)
    case Derive(rid) =>
      && rid in g.requests
      && (match g.requests[rid]
          case SignInDerives(password) =>
            h == At(g, rid, if Unlock(g.disk, password).Ok? then SignInOpens(password, Unlock(g.disk, password).value)
                else Leaves)
          case ChangeDerives(session, current, next) =>
            h == At(g, rid, if CheckLength(next).Ok? && Unlock(g.disk, current).Ok?
                            then ChangeSaves(session, next, Unlock(g.disk, current).value) else Leaves)
          case _ => false)
    case Abandon(rid) =>
      // The random source failed before the session was entered.
      && rid in g.requests && g.requests[rid].SignInOpens?
      && h == At(g, rid, Leaves)
    case OpenSession(rid, id, now) =>
      && rid in g.requests && g.requests[rid].SignInOpens?
      && OpenedWith(g.sessions, id, now, g.requests[rid].password, h.sessions)
      && h == At(g, rid, Leaves).(sessions := h.sessions,
                                  key := if g.key.None? then Some(g.requests[rid].key) else g.key)
    case CheckSession(rid, now) =>
      && rid in g.requests && g.requests[rid].ChangeArrives?
      && var ChangeArrives(session, current, next) := g.requests[rid];
      if session in g.sessions && now < g.sessions[session].until
      then h == At(g, rid, ChangeWaits(session, current, next))
      else h == At(g, rid, Answered).(sessions := g.sessions - {session})
    case Save(rid, salt, nonce, saved) =>
      && rid in g.requests && g.requests[rid].ChangeSaves? && |salt| == 16 && |nonce| == 12
      && var ChangeSaves(session, next, key) := g.requests[rid];
      if saved
      then h == At(g, rid, ChangeSaved(session)).(disk := Holds(Seal(key, next, salt, nonce)), changer := Some(session))
      else h == At(g, rid, Leaves)
    case EndOthers(rid) =>
      && rid in g.requests && g.requests[rid].ChangeSaved?
      && h ==
          At(g, rid, Leaves).(sessions := map id | id in g.sessions && id == g.requests[rid].session :: g.sessions[id])
    case Release(rid) =>
      && rid in g.requests && g.requests[rid].Leaves? && g.slot == Some(rid)
      && h == At(g, rid, Answered).(slot := None)
    case SignOut(id) =>
      h == g.(sessions := g.sessions - {id})
    case Expire(id, now) =>
      && id in g.sessions && now >= g.sessions[id].until
      && h == g.(sessions := g.sessions - {id})
  }

  ghost predicate Start(g: Gate) {
    g.key.None? && g.sessions == map[] && g.slot.None? && g.requests == map[] && g.changer.None?
  }

  ghost predicate Runs(gs: seq<Gate>, steps: seq<Step>) {
    && |gs| == |steps| + 1 && Start(gs[0])
    && forall i :: 0 <= i < |steps| ==> Next(gs[i], steps[i], gs[i + 1])
  }

  /** Whether this password is the one in the access file. */
  predicate Current(disk: Disk, password: string) {
    Unlock(disk, password).Ok?
  }

  /** The data key is sealed in the file: some password gives it. */
  ghost predicate Sealing(disk: Disk, key: bytes) {
    exists password :: Unlock(disk, password) == Ok(key)
  }

  /** The slot belongs to the one request past taking it and not yet past giving it back. */
  ghost predicate Exclusive(g: Gate) {
    forall rid :: rid in g.requests && g.requests[rid].Holds() <==> g.slot == Some(rid)
  }

  /** What the holder of the slot has read from the file still holds of it. */
  ghost predicate Fresh(g: Gate) {
    forall rid :: rid in g.requests ==>
      match g.requests[rid]
      case SignInOpens(password, key) => Unlock(g.disk, password) == Ok(key)
      case ChangeSaves(_, next, key) => CheckLength(next).Ok? && Sealing(g.disk, key)
      case ChangeSaved(session) => g.changer == Some(session)
      case _ => true
  }

  /** A change has replaced the file and not yet ended the other sessions. */
  ghost predicate Changing(g: Gate) {
    exists rid :: rid in g.requests && g.requests[rid].ChangeSaved?
  }

  ghost predicate Entitled(g: Gate) {
    forall id :: id in g.sessions ==> Current(g.disk, g.sessions[id].openedWith) || g.changer == Some(id)
  }

  ghost predicate Inv(g: Gate) {
    && Exclusive(g) && Fresh(g)
    && (!Changing(g) ==> Entitled(g))
    && (g.key.Some? ==> Sealing(g.disk, g.key.value))
    && |g.sessions| <= MAX_SESSIONS
  }

  /** Replacing the file keeps the data key, and leaves one password. */
  lemma SavedFile(disk: Disk, key: DataKey, next: string, salt: bytes, nonce: bytes, held: bytes)
    requires CheckLength(next).Ok? && |salt| == 16 && |nonce| == 12
    requires Sealing(disk, key) && Sealing(disk, held)
    ensures Sealing(Holds(Seal(key, next, salt, nonce)), held) && key == held
  {
    SealOpens(key, next, salt, nonce, next);
    var a :| Unlock(disk, a) == Ok(key);
    var b :| Unlock(disk, b) == Ok(held);
    OnePassword(disk, a, b);
  }

  lemma StepExclusive(g: Gate, s: Step, h: Gate)
    requires Exclusive(g) && Next(g, s, h)
    ensures Exclusive(h)
  {}

  lemma SaveKeeps(g: Gate, s: Step, h: Gate)
    requires Inv(g) && Next(g, s, h) && s.Save? && s.saved
    ensures Fresh(h) && Changing(h) && (h.key.Some? ==> Sealing(h.disk, h.key.value))
  {
    var session, next, key := g.requests[s.rid].session, g.requests[s.rid].next, g.requests[s.rid].key;
    assert g.slot == Some(s.rid);
    if h.key.Some? {
      SavedFile(g.disk, key, next, s.salt, s.nonce, h.key.value);
    }
    assert h.requests[s.rid].ChangeSaved?;
    forall rid | rid in h.requests && rid != s.rid
      ensures !h.requests[rid].Holds()
    {
      assert !g.requests[rid].Holds();
    }
  }

  lemma OpenKeeps(g: Gate, s: Step, h: Gate)
    requires Inv(g) && Next(g, s, h) && s.OpenSession?
    ensures Entitled(g) && Entitled(h) && |h.sessions| <= MAX_SESSIONS && (h.key.Some? ==> Sealing(h.disk, h.key.value))
  {
    var password := g.requests[s.rid].password;
    assert g.slot == Some(s.rid);
    assert !Changing(g);
    assert Unlock(g.disk, password) == Ok(g.requests[s.rid].key);
    OpenedBounded(Ends(g.sessions), s.id, s.now, Ends(h.sessions));
    assert Ends(h.sessions).Keys == h.sessions.Keys;
    assert |Ends(h.sessions)| == |Ends(h.sessions).Keys| && |h.sessions| == |h.sessions.Keys|;
  }

  lemma FewerSessions(g: Gate, h: Gate)
    requires Inv(g) && h.disk == g.disk && h.key == g.key && h.changer == g.changer
    requires forall id :: id in h.sessions ==> id in g.sessions && h.sessions[id] == g.sessions[id]
    ensures |h.sessions| <= MAX_SESSIONS && (Entitled(g) ==> Entitled(h))
  {
    Fewer(h.sessions.Keys, g.sessions.Keys);
    assert |h.sessions| == |h.sessions.Keys| && |g.sessions| == |g.sessions.Keys|;
  }

  /** A step that neither replaces the file nor enters a session. */
  lemma QuietStep(g: Gate, s: Step, h: Gate)
    requires Inv(g) && Next(g, s, h) && !s.OpenSession? && !(s.Save? && s.saved)
    ensures h.disk == g.disk && h.key == g.key && h.changer == g.changer
    ensures forall id :: id in h.sessions ==> id in g.sessions && h.sessions[id] == g.sessions[id]
    ensures Fresh(h)
  {
    match s
    case Derive(rid) =>
      var now := h.requests[rid];
      if now.ChangeSaves? {
        assert Unlock(g.disk, g.requests[rid].current) == Ok(now.key);
      }
    case _ =>
  }

  /** The other sessions are gone once the request that changed the password has ended them. */
  lemma QuietEntitled(g: Gate, s: Step, h: Gate)
    requires Inv(g) && Next(g, s, h) && !s.OpenSession? && !(s.Save? && s.saved) && !Changing(h)
    ensures Entitled(h)
  {
    QuietStep(g, s, h);
    FewerSessions(g, h);
    if Changing(g) {
      var rid :| rid in g.requests && g.requests[rid].ChangeSaved?;
      assert rid in h.requests;
      assert s == EndOthers(rid);
    }
  }

  lemma StepKeeps(g: Gate, s: Step, h: Gate)
    requires Inv(g) && Next(g, s, h)
    ensures Inv(h)
  {
    StepExclusive(g, s, h);
    if s.Save? && s.saved {
      SaveKeeps(g, s, h);
    } else if s.OpenSession? {
      OpenKeeps(g, s, h);
    } else {
      QuietStep(g, s, h);
      FewerSessions(g, h);
      if !Changing(h) {
        QuietEntitled(g, s, h);
      }
    }
  }

  lemma {:induction false} RunKeeps(gs: seq<Gate>, steps: seq<Step>, i: nat)
    requires Runs(gs, steps) && i < |gs|
    ensures Inv(gs[i])
  {
    if i > 0 {
      RunKeeps(gs, steps, i - 1);
      StepKeeps(gs[i - 1], steps[i - 1], gs[i]);
    }
  }

  /** In every interleaving, whenever the slot is free every session in the table was
      opened with the password now in the access file, or made the last change. */
  lemma FreeMeansEntitled(gs: seq<Gate>, steps: seq<Step>, i: nat)
    requires Runs(gs, steps) && i < |gs| && gs[i].slot.None?
    ensures Entitled(gs[i]) && |gs[i].sessions| <= MAX_SESSIONS
  {
    RunKeeps(gs, steps, i);
    forall rid | rid in gs[i].requests
      ensures !gs[i].requests[rid].ChangeSaved?
    {
      assert !gs[i].requests[rid].Holds();
    }
  }

  /** One request at a time is between taking the slot and giving it back. */
  lemma OneDerivation(gs: seq<Gate>, steps: seq<Step>, i: nat, a: Rid, b: Rid)
    requires Runs(gs, steps) && i < |gs| && a in gs[i].requests && b in gs[i].requests
    requires gs[i].requests[a].Holds() && gs[i].requests[b].Holds()
    ensures a == b
  {
    RunKeeps(gs, steps, i);
  }

  /** No password change replaces the data key, and the key in memory is that key:
      what was encrypted before a change stays readable after it. */
  lemma {:induction false} DataKeyKept(gs: seq<Gate>, steps: seq<Step>, i: nat, key: bytes)
    requires Runs(gs, steps) && i < |gs| && Sealing(gs[0].disk, key)
    ensures Sealing(gs[i].disk, key) && (gs[i].key.Some? ==> gs[i].key.value == key)
  {
    hide Next, Inv, Sealing, Start;
    RunKeeps(gs, steps, i);
    if i > 0 {
      DataKeyKept(gs, steps, i - 1, key);
      RunKeeps(gs, steps, i - 1);
      KeyStep(gs[i - 1], steps[i - 1], gs[i], key);
    }
    KeyInMemory(gs[i], key);
  }

  lemma KeyStep(g: Gate, s: Step, h: Gate, key: bytes)
    requires Inv(g) && Next(g, s, h) && Sealing(g.disk, key)
    ensures Sealing(h.disk, key)
  {
    hide Sealing;
    if s.Save? && s.saved {
      SavedFile(g.disk, g.requests[s.rid].key, g.requests[s.rid].next, s.salt, s.nonce, key);
    } else {
      assert h.disk == g.disk;
    }
  }

  lemma KeyInMemory(g: Gate, key: bytes)
    requires Inv(g) && Sealing(g.disk, key)
    ensures g.key.Some? ==> g.key.value == key
  {
    if g.key.Some? {
      var a :| Unlock(g.disk, a) == Ok(g.key.value);
      var b :| Unlock(g.disk, b) == Ok(key);
      OnePassword(g.disk, a, b);
    }
  }
}
