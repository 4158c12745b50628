/** What a sign-in and a password change come to, from beginning to end (internal/access/gate.go).

    The laws of the protocol say what no run does; these say what runs there are. They hold from any
    state in which the slot is free, whatever went before and whoever else is waiting.
 */
module GateRuns {
  import opened Options
  import opened Bytes
  import opened Buckets
  import opened AccessFile
  import opened GateProtocol
  import S = Sessions

  /** The steps, one after another, can lead from one state to the other. */
  ghost predicate Leads(g: Gate, steps: seq<Step>, h: Gate)
    decreases |steps|
  {
    if steps == [] then h == g
    else exists m :: Next(g, steps[0], m) && Leads(m, steps[1..], h)
  }

  ghost predicate Idle(g: Gate, rid: Rid) {
    g.slot.None? && rid !in g.requests
  }

  lemma FirstStep(g: Gate, s: Step, rest: seq<Step>, h: Gate)
    ensures Leads(g, [s] + rest, h) <==> exists m :: Next(g, s, m) && Leads(m, rest, h)
    ensures Leads(g, [], h) <==> h == g
  {
    assert ([s] + rest)[1..] == rest;
  }

  /** A step that can only go one way. */
  lemma OneWay(g: Gate, s: Step, m: Gate, rest: seq<Step>, h: Gate)
    requires forall k :: Next(g, s, k) <==> k == m
    ensures Leads(g, [s] + rest, h) <==> Leads(m, rest, h)
  {
    hide Next, Leads;
    FirstStep(g, s, rest, h);
  }

  /** A step that cannot be taken. */
  lemma NoWay(g: Gate, s: Step, rest: seq<Step>, h: Gate)
    requires forall k :: !Next(g, s, k)
    ensures !Leads(g, [s] + rest, h)
  {
    hide Next, Leads;
    FirstStep(g, s, rest, h);
  }

  lemma Released(g: Gate, rid: Rid, h: Gate)
    requires rid in g.requests && g.slot == Some(rid)
    ensures Leads(g, [Release(rid)], h) <==> g.requests[rid].Leaves? && h == At(g, rid, Answered).(slot := None)
  {
    hide Leads;
    var done := At(g, rid, Answered).(slot := None);
    assert [Release(rid)] + [] == [Release(rid)];
    FirstStep(done, Release(rid), [], h);
    if g.requests[rid].Leaves? {
      OneWay(g, Release(rid), done, [], h);
    } else {
      NoWay(g, Release(rid), [], h);
    }
  }

  // ---- The slot comes back ----

  /** The slot can be free within so many steps. */
  ghost predicate Frees(g: Gate, n: nat) {
    exists steps, h :: |steps| <= n && Leads(g, steps, h) && h.slot.None?
  }

  lemma OneMore(g: Gate, s: Step, m: Gate, n: nat)
    requires Next(g, s, m) && Frees(m, n)
    ensures Frees(g, n + 1)
  {
    hide Next, Leads;
    var steps, h :| |steps| <= n && Leads(m, steps, h) && h.slot.None?;
    FirstStep(g, s, steps, h);
    assert |[s] + steps| <= n + 1;
  }

  lemma LeavingFrees(g: Gate, rid: Rid)
    requires rid in g.requests && g.requests[rid].Leaves? && g.slot == Some(rid)
    ensures Frees(g, 1)
  {
    var done := At(g, rid, Answered).(slot := None);
    assert |[Release(rid)]| <= 1;
    Released(g, rid, done);
  }

  lemma HolderFrees(g: Gate, rid: Rid)
    requires rid in g.requests && g.requests[rid].Holds() && g.slot == Some(rid)
    requires !g.requests[rid].SignInDerives? && !g.requests[rid].ChangeDerives?
    ensures Frees(g, 2)
  {
    hide Frees;
    var left := At(g, rid, Leaves);
    var zeros: bytes := [0, 0, 0, 0, 0, 0, 0, 0, 0, 0, 0, 0, 0, 0, 0, 0];
    match g.requests[rid]
    case SignInOpens(_, _) =>
      LeavingFrees(left, rid);
      OneMore(g, Abandon(rid), left, 1);
    case ChangeSaves(_, _, _) =>
      LeavingFrees(left, rid);
      OneMore(g, Save(rid, zeros, zeros[..12], false), left, 1);
    case ChangeSaved(session) =>
      var alone := left.(sessions := map id | id in g.sessions && id == session :: g.sessions[id]);
      LeavingFrees(alone, rid);
      OneMore(g, EndOthers(rid), alone, 1);
    case Leaves =>
      LeavingFrees(g, rid);
      FreesLater(g, 1, 2);
    case _ =>
  }

  lemma FreesLater(g: Gate, n: nat, more: nat)
    requires Frees(g, n) && n <= more
    ensures Frees(g, more)
  {}

  /** In whatever state a run has come to, the slot can be given back within three steps of its holder. */
  lemma SlotComesBack(g: Gate)
    requires Inv(g)
    ensures Frees(g, 3)
  {
    hide Frees, Unlock, CheckLength;
    if g.slot.None? {
      FreeAlready(g);
    } else {
      var rid := g.slot.value;
      assert rid in g.requests && g.requests[rid].Holds();
      match g.requests[rid]
      case SignInDerives(password) =>
        var m := Derived(g, rid, password);
        assert Next(g, Derive(rid), m);
        HolderFrees(m, rid);
        OneMore(g, Derive(rid), m, 2);
      case ChangeDerives(session, current, next) =>
        var m := ChangeDerived(g, rid, session, current, next);
        assert Next(g, Derive(rid), m);
        HolderFrees(m, rid);
        OneMore(g, Derive(rid), m, 2);
      case _ =>
        HolderFrees(g, rid);
        FreesLater(g, 2, 3);
    }
  }

  lemma FreeAlready(g: Gate)
    requires g.slot.None?
    ensures Frees(g, 3)
  {
    FirstStep(g, Release(0), [], g);
    var none: seq<Step> := [];
    assert |none| <= 3 && Leads(g, none, g);
  }

  // ---- A sign-in ----

  /** Where a sign-in stands once it has derived: before its session if its password opened the file,
      and with only to leave if not. */
  function Derived(g: Gate, rid: Rid, password: string): Gate {
    var phase := if Unlock(g.disk, password).Ok? then SignInOpens(password, Unlock(g.disk, password).value) else Leaves;
    g.(slot := Some(rid), requests := g.requests[rid := phase])
  }

  lemma SignInDerived(g: Gate, rid: Rid, password: string, rest: seq<Step>, h: Gate)
    requires Idle(g, rid)
    ensures Leads(g, [Arrive(rid, SignInWaits(password)), Take(rid), Derive(rid)] + rest, h) <==>
            Leads(Derived(g, rid, password), rest, h)
  {
    hide Leads, Unlock;
    var waits := At(g, rid, SignInWaits(password));
    var derives := At(waits, rid, SignInDerives(password)).(slot := Some(rid));
    assert [Arrive(rid, SignInWaits(password)), Take(rid), Derive(rid)] + rest ==
           [Arrive(rid, SignInWaits(password))] + ([Take(rid)] + ([Derive(rid)] + rest));
    OneWay(g, Arrive(rid, SignInWaits(password)), waits, [Take(rid)] + ([Derive(rid)] + rest), h);
    OneWay(waits, Take(rid), derives, [Derive(rid)] + rest, h);
    assert Derived(derives, rid, password) == Derived(g, rid, password);
    OneWay(derives, Derive(rid), Derived(g, rid, password), rest, h);
  }

  function SignIn(rid: Rid, password: string, rest: seq<Step>): seq<Step> {
    [Arrive(rid, SignInWaits(password)), Take(rid), Derive(rid)] + rest
  }

  /** What the gate holds after a sign-in: one session of twelve hours more, some older ones perhaps
      gone, the key in memory and the slot free. */
  ghost predicate SignedIn(g: Gate, rid: Rid, password: string, key: bytes, id: S.Id, now: int, h: Gate) {
    && h == At(g, rid, Answered).(key := Some(if g.key.Some? then g.key.value else key), sessions := h.sessions)
    && id in h.sessions && h.sessions[id] == Session(now + 12 * 3600 * 1_000_000_000, password)
    && |h.sessions| <= 32
    && (forall other :: other in h.sessions && other != id ==>
          other in g.sessions && h.sessions[other] == g.sessions[other] && now < g.sessions[other].until)
    && (|g.sessions| < 32 ==>
          forall other :: other in g.sessions && now < g.sessions[other].until && other != id ==> other in h.sessions)
  }

  lemma OpenMeans(sessions: map<S.Id, Session>, id: S.Id, now: int, password: string, next: map<S.Id, Session>)
    requires OpenedWith(sessions, id, now, password, next)
    ensures id in next && next[id] == Session(now + 12 * 3600 * 1_000_000_000, password)
    ensures |next| <= 32
    ensures forall other :: other in next && other != id ==>
              other in sessions && next[other] == sessions[other] && now < sessions[other].until
    ensures |sessions| < 32 ==>
              forall other :: other in sessions && now < sessions[other].until && other != id ==> other in next
  {
    var table, after := Ends(sessions), Ends(next);
    S.OpenedBounded(table, id, now, after);
    assert after.Keys == next.Keys && table.Keys == sessions.Keys;
    assert |after| == |after.Keys| && |next| == |next.Keys|;
    var live := S.Live(table, now);
    var kept :| S.RoomFor(live, kept) && after == kept[id := now + S.SESSION_LIFE];
    assert after[id] == next[id].until;
    if |sessions| < 32 {
      assert |table| == |table.Keys| && |sessions| == |sessions.Keys| && |live| == |live.Keys|;
      Fewer(live.Keys, table.Keys);
      S.RoomAll(live, kept);
    }
  }

  /** There is always a table to open a session in. */
  lemma OpenCanBe(sessions: map<S.Id, Session>, id: S.Id, now: int, password: string)
    ensures exists next :: OpenedWith(sessions, id, now, password, next)
  {
    hide S.RoomFor;
    var live := S.Live(Ends(sessions), now);
    S.RoomCanBeMade(live);
    var kept :| S.RoomFor(live, kept);
    S.KeptFromTable(Ends(sessions), now, kept);
    var next := (map other | other in kept :: sessions[other])[id := Session(now + S.SESSION_LIFE, password)];
    assert Ends(next) == kept[id := now + S.SESSION_LIFE];
    assert OpenedWith(sessions, id, now, password, next);
  }

  /** A sign-in can be admitted if and only if its password opens the file, and refused if and only if
      it does not. Admitted, it has its session; refused, it leaves everything as it was. */
  lemma SignInExactly(g: Gate, rid: Rid, password: string, id: S.Id, now: int, h: Gate)
    requires Idle(g, rid)
    ensures (exists k :: Leads(g, SignIn(rid, password, [OpenSession(rid, id, now), Release(rid)]), k)) <==>
            Unlock(g.disk, password).Ok?
    ensures Leads(g, SignIn(rid, password, [OpenSession(rid, id, now), Release(rid)]), h) ==>
              && Unlock(g.disk, password).Ok?
              && SignedIn(g, rid, password, Unlock(g.disk, password).value, id, now, h)
    ensures Leads(g, SignIn(rid, password, [Release(rid)]), h) <==>
            Unlock(g.disk, password).Err? && h == At(g, rid, Answered)
  {
    hide Leads, Unlock, SignedIn, Next;
    var derived := Derived(g, rid, password);
    var rest := [OpenSession(rid, id, now), Release(rid)];
    SignInDerived(g, rid, password, [Release(rid)], h);
    Released(derived, rid, h);
    forall k
      ensures Leads(g, SignIn(rid, password, rest), k) <==> Leads(derived, rest, k)
    {
      SignInDerived(g, rid, password, rest, k);
    }
    if Leads(derived, rest, h) {
      AdmittedMeans(g, rid, password, id, now, h);
    }
    if Unlock(g.disk, password).Ok? {
      AdmittedCanBe(g, rid, password, id, now);
      var k :| Leads(derived, rest, k);
      assert Leads(g, SignIn(rid, password, rest), k);
    }
    forall k | Leads(derived, rest, k)
      ensures Unlock(g.disk, password).Ok?
    {
      AdmittedMeans(g, rid, password, id, now, k);
    }
  }

  lemma AdmittedMeans(g: Gate, rid: Rid, password: string, id: S.Id, now: int, h: Gate)
    requires Idle(g, rid)
    requires Leads(Derived(g, rid, password), [OpenSession(rid, id, now), Release(rid)], h)
    ensures Unlock(g.disk, password).Ok?
    ensures SignedIn(g, rid, password, Unlock(g.disk, password).value, id, now, h)
  {
    hide Leads, Unlock, OpenedWith;
    var derived := Derived(g, rid, password);
    assert [OpenSession(rid, id, now), Release(rid)] == [OpenSession(rid, id, now)] + [Release(rid)];
    FirstStep(derived, OpenSession(rid, id, now), [Release(rid)], h);
    var m :| Next(derived, OpenSession(rid, id, now), m) && Leads(m, [Release(rid)], h);
    OpenMeans(g.sessions, id, now, password, m.sessions);
    Released(m, rid, h);
    assert h.sessions == m.sessions;
  }

  lemma AdmittedCanBe(g: Gate, rid: Rid, password: string, id: S.Id, now: int)
    requires Idle(g, rid) && Unlock(g.disk, password).Ok?
    ensures exists k :: Leads(Derived(g, rid, password), [OpenSession(rid, id, now), Release(rid)], k)
  {
    hide Leads, Unlock, OpenedWith;
    var derived := Derived(g, rid, password);
    OpenCanBe(g.sessions, id, now, password);
    var next :| OpenedWith(g.sessions, id, now, password, next);
    var m := At(derived, rid, Leaves).(
      sessions := next, key := if g.key.None? then Some(derived.requests[rid].key) else g.key);
    var k := At(m, rid, Answered).(slot := None);
    Released(m, rid, k);
    assert Next(derived, OpenSession(rid, id, now), m);
    assert [OpenSession(rid, id, now), Release(rid)] == [OpenSession(rid, id, now)] + [Release(rid)];
    FirstStep(derived, OpenSession(rid, id, now), [Release(rid)], k);
  }

  /** So of a sealed file the one password that signs in is the one it was sealed under, and the key
      in memory is the one it was sealed with. */
  lemma SealedSignIn(g: Gate, rid: Rid, password: string, attempt: string, key: DataKey, salt: bytes, nonce: bytes,
                     id: S.Id, now: int)
    requires Idle(g, rid) && g.key.None? && CheckLength(password).Ok? && |salt| == 16 && |nonce| == 12
    requires g.disk == Holds(Seal(key, password, salt, nonce))
    ensures (exists k :: Leads(g, SignIn(rid, attempt, [OpenSession(rid, id, now), Release(rid)]), k)) <==>
            attempt == password
    ensures forall k :: Leads(g, SignIn(rid, attempt, [OpenSession(rid, id, now), Release(rid)]), k) ==>
              && k.key == Some(key) && k.slot.None? && id in k.sessions
              && k.sessions[id] == Session(now + 12 * 3600 * 1_000_000_000, password)
  {
    hide Leads, Unlock, Seal;
    SealOpens(key, password, salt, nonce, attempt);
    SignInExactly(g, rid, attempt, id, now, g);
    forall k | Leads(g, SignIn(rid, attempt, [OpenSession(rid, id, now), Release(rid)]), k)
      ensures k.key == Some(key) && k.slot.None? && id in k.sessions
      ensures k.sessions[id] == Session(now + 12 * 3600 * 1_000_000_000, password)
    {
      SignInExactly(g, rid, attempt, id, now, k);
    }
  }

  // ---- A password change ----

  predicate LiveAt(g: Gate, session: S.Id, now: int) {
    session in g.sessions && now < g.sessions[session].until
  }

  /** Whether the change may go ahead. */
  predicate Granted(g: Gate, current: string, next: string) {
    CheckLength(next).Ok? && Unlock(g.disk, current).Ok?
  }

  function Change(rid: Rid, session: S.Id, current: string, next: string, now: int, rest: seq<Step>): seq<Step> {
    [Arrive(rid, ChangeArrives(session, current, next)), CheckSession(rid, now), Take(rid), Derive(rid)] + rest
  }

  function ChangeDerived(g: Gate, rid: Rid, session: S.Id, current: string, next: string): Gate {
    var phase := if Granted(g, current, next) then ChangeSaves(session, next, Unlock(g.disk, current).value)
                 else Leaves;
    g.(slot := Some(rid), requests := g.requests[rid := phase])
  }

  lemma ChangeChecked(g: Gate, rid: Rid, session: S.Id, current: string, next: string, now: int, rest: seq<Step>,
                      h: Gate)
    requires Idle(g, rid) && LiveAt(g, session, now)
    ensures Leads(g, Change(rid, session, current, next, now, rest), h) <==>
            Leads(ChangeDerived(g, rid, session, current, next), rest, h)
  {
    hide Leads, Unlock, CheckLength;
    var arrived := At(g, rid, ChangeArrives(session, current, next));
    var waits := At(arrived, rid, ChangeWaits(session, current, next));
    var derives := At(waits, rid, ChangeDerives(session, current, next)).(slot := Some(rid));
    var derived := ChangeDerived(g, rid, session, current, next);
    var last := [Derive(rid)] + rest;
    var more := [Take(rid)] + last;
    assert Change(rid, session, current, next, now, rest) ==
           [Arrive(rid, ChangeArrives(session, current, next))] + ([CheckSession(rid, now)] + more);
    OneWay(g, Arrive(rid, ChangeArrives(session, current, next)), arrived, [CheckSession(rid, now)] + more, h);
    OneWay(arrived, CheckSession(rid, now), waits, more, h);
    OneWay(waits, Take(rid), derives, last, h);
    assert derived == At(derives, rid, derived.requests[rid]);
    OneWay(derives, Derive(rid), derived, rest, h);
  }

  /** Without a live session a change is answered at its check, and nothing is left of it but that an
      expired session is gone. */
  lemma NotSignedIn(g: Gate, rid: Rid, session: S.Id, current: string, next: string, now: int, rest: seq<Step>,
                    h: Gate)
    requires Idle(g, rid) && !LiveAt(g, session, now)
    ensures !Leads(g, Change(rid, session, current, next, now, rest), h)
    ensures Leads(g, [Arrive(rid, ChangeArrives(session, current, next)), CheckSession(rid, now)], h) <==>
            h == At(g, rid, Answered).(sessions := g.sessions - {session})
  {
    hide Leads;
    var arrived := At(g, rid, ChangeArrives(session, current, next));
    var answered := At(g, rid, Answered).(sessions := g.sessions - {session});
    var more := [Take(rid)] + ([Derive(rid)] + rest);
    assert answered == At(arrived, rid, Answered).(sessions := g.sessions - {session});
    assert Change(rid, session, current, next, now, rest) ==
           [Arrive(rid, ChangeArrives(session, current, next))] + ([CheckSession(rid, now)] + more);
    assert [Arrive(rid, ChangeArrives(session, current, next)), CheckSession(rid, now)] ==
           [Arrive(rid, ChangeArrives(session, current, next))] + ([CheckSession(rid, now)] + []);
    OneWay(g, Arrive(rid, ChangeArrives(session, current, next)), arrived, [CheckSession(rid, now)] + more, h);
    OneWay(g, Arrive(rid, ChangeArrives(session, current, next)), arrived, [CheckSession(rid, now)] + [], h);
    OneWay(arrived, CheckSession(rid, now), answered, more, h);
    OneWay(arrived, CheckSession(rid, now), answered, [], h);
    FirstStep(answered, Take(rid), [], h);
    NoWay(answered, Take(rid), [Derive(rid)] + rest, h);
  }

  /** The gate after a change: the file sealed anew with the key it held, the session that made the
      change still signed in and no other, and the slot free. */
  function Changed(g: Gate, rid: Rid, session: S.Id, current: string, next: string, salt: bytes, nonce: bytes): Gate
    requires session in g.sessions && Granted(g, current, next)
  {
    At(g, rid, Answered).(disk := Holds(Seal(Unlock(g.disk, current).value, next, salt, nonce)),
                          sessions := map[session := g.sessions[session]], changer := Some(session))
  }

  function Saving(rid: Rid, salt: bytes, nonce: bytes): seq<Step> {
    [Save(rid, salt, nonce, true), EndOthers(rid), Release(rid)]
  }

  lemma SaveLeads(g: Gate, rid: Rid, session: S.Id, current: string, next: string, salt: bytes, nonce: bytes, h: Gate)
    requires Idle(g, rid) && session in g.sessions && |salt| == 16 && |nonce| == 12
    ensures Leads(ChangeDerived(g, rid, session, current, next), Saving(rid, salt, nonce), h) <==>
            Granted(g, current, next) && h == Changed(g, rid, session, current, next, salt, nonce)
  {
    hide Leads, Unlock, CheckLength, Seal;
    var derived := ChangeDerived(g, rid, session, current, next);
    var keep := Save(rid, salt, nonce, true);
    var last := [EndOthers(rid)] + [Release(rid)];
    assert Saving(rid, salt, nonce) == [keep] + last;
    if Granted(g, current, next) {
      var saved := At(derived, rid, ChangeSaved(session)).(
        disk := Holds(Seal(Unlock(g.disk, current).value, next, salt, nonce)), changer := Some(session));
      OneWay(derived, keep, saved, last, h);
      OthersEnded(saved, rid, session, h);
    } else {
      NoWay(derived, keep, last, h);
    }
  }

  lemma OthersEnded(g: Gate, rid: Rid, session: S.Id, h: Gate)
    requires rid in g.requests && g.requests[rid] == ChangeSaved(session) && session in g.sessions
    requires g.slot == Some(rid)
    ensures Leads(g, [EndOthers(rid)] + [Release(rid)], h) <==>
            h == At(g, rid, Answered).(sessions := map[session := g.sessions[session]], slot := None)
  {
    hide Leads;
    var alone := At(g, rid, Leaves).(sessions := map[session := g.sessions[session]]);
    assert (map id | id in g.sessions && id == session :: g.sessions[id]) == map[session := g.sessions[session]];
    OneWay(g, EndOthers(rid), alone, [Release(rid)], h);
    Released(alone, rid, h);
    assert At(alone, rid, Answered).requests == At(g, rid, Answered).requests;
  }

  lemma SaveFails(g: Gate, rid: Rid, session: S.Id, current: string, next: string, salt: bytes, nonce: bytes, h: Gate)
    requires Idle(g, rid) && |salt| == 16 && |nonce| == 12
    ensures Leads(ChangeDerived(g, rid, session, current, next), [Save(rid, salt, nonce, false), Release(rid)], h) <==>
            Granted(g, current, next) && h == At(g, rid, Answered)
  {
    hide Leads, Unlock, CheckLength, Seal;
    var derived := ChangeDerived(g, rid, session, current, next);
    var lose := Save(rid, salt, nonce, false);
    assert [lose, Release(rid)] == [lose] + [Release(rid)];
    if Granted(g, current, next) {
      OneWay(derived, lose, At(derived, rid, Leaves), [Release(rid)], h);
      Released(At(derived, rid, Leaves), rid, h);
    } else {
      NoWay(derived, lose, [Release(rid)], h);
    }
  }

  /** A change replaces the file if and only if its session is live at its check, the new password is
      fit, the old one opens the file and the save completes. Refused or not saved, it leaves everything
      as it was. */
  lemma ChangeExactly(g: Gate, rid: Rid, session: S.Id, current: string, next: string, now: int, salt: bytes,
                      nonce: bytes, h: Gate)
    requires Idle(g, rid) && |salt| == 16 && |nonce| == 12
    ensures Leads(g, Change(rid, session, current, next, now, Saving(rid, salt, nonce)), h) <==>
              && LiveAt(g, session, now) && Granted(g, current, next)
              && h == Changed(g, rid, session, current, next, salt, nonce)
    ensures Leads(g, Change(rid, session, current, next, now, [Save(rid, salt, nonce, false), Release(rid)]), h) <==>
            LiveAt(g, session, now) && Granted(g, current, next) && h == At(g, rid, Answered)
    ensures Leads(g, Change(rid, session, current, next, now, [Release(rid)]), h) <==>
            LiveAt(g, session, now) && !Granted(g, current, next) && h == At(g, rid, Answered)
  {
    hide Leads, Granted, Changed, Change;
    var lost := [Save(rid, salt, nonce, false), Release(rid)];
    if LiveAt(g, session, now) {
      ChangeChecked(g, rid, session, current, next, now, Saving(rid, salt, nonce), h);
      ChangeChecked(g, rid, session, current, next, now, lost, h);
      ChangeChecked(g, rid, session, current, next, now, [Release(rid)], h);
      SaveLeads(g, rid, session, current, next, salt, nonce, h);
      SaveFails(g, rid, session, current, next, salt, nonce, h);
      Released(ChangeDerived(g, rid, session, current, next), rid, h);
    } else {
      NotSignedIn(g, rid, session, current, next, now, Saving(rid, salt, nonce), h);
      NotSignedIn(g, rid, session, current, next, now, lost, h);
      NotSignedIn(g, rid, session, current, next, now, [Release(rid)], h);
    }
  }

  /** After it the new password opens the file and no other does, and it opens the key that was there. */
  lemma ChangedOpens(g: Gate, rid: Rid, session: S.Id, current: string, next: string, salt: bytes, nonce: bytes,
                     attempt: string)
    requires session in g.sessions && Granted(g, current, next) && |salt| == 16 && |nonce| == 12
    ensures var h := Changed(g, rid, session, current, next, salt, nonce);
            && (Unlock(h.disk, attempt).Ok? <==> attempt == next)
            && Unlock(h.disk, next) == Unlock(g.disk, current)
            && h.sessions == map[session := g.sessions[session]] && h.key == g.key && h.slot == g.slot
  {
    hide Unlock, Seal, CheckLength;
    SealOpens(Unlock(g.disk, current).value, next, salt, nonce, attempt);
  }
}
