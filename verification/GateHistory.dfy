/** How a request came to where it stands, in any interleaving (internal/access/gate.go). */
module GateHistory {
  import opened Options
  import opened Bytes
  import opened AccessFile
  import opened GateProtocol
  import S = Sessions

  /** The request arrived before this point, asking this. */
  ghost predicate Arrived(steps: seq<Step>, i: nat, rid: Rid, phase: Phase)
    requires i <= |steps|
  {
    exists k :: 0 <= k < i && steps[k] == Arrive(rid, phase)
  }

  /** Its session was live when it was looked at. */
  ghost predicate Checked(gs: seq<Gate>, steps: seq<Step>, i: nat, rid: Rid, session: S.Id)
    requires i <= |steps| < |gs|
  {
    exists j :: 0 <= j < i && LookedAt(gs[j], steps[j], rid, session)
  }

  predicate LookedAt(g: Gate, s: Step, rid: Rid, session: S.Id) {
    s.CheckSession? && s.rid == rid && session in g.sessions && s.now < g.sessions[session].until
  }

  /** What must have happened for a request to stand where it does. */
  ghost predicate History(gs: seq<Gate>, steps: seq<Step>, i: nat, rid: Rid)
    requires i <= |steps| < |gs| && rid in gs[i].requests
  {
    match gs[i].requests[rid]
    case SignInWaits(p) => Arrived(steps, i, rid, SignInWaits(p))
    case SignInDerives(p) => Arrived(steps, i, rid, SignInWaits(p))
    case SignInOpens(p, key) => Arrived(steps, i, rid, SignInWaits(p)) && Unlock(gs[i].disk, p) == Ok(key)
    case ChangeArrives(session, current, next) => Arrived(steps, i, rid, ChangeArrives(session, current, next))
    case ChangeWaits(session, current, next) => Authorised(gs, steps, i, rid, session, current, next)
    case ChangeDerives(session, current, next) => Authorised(gs, steps, i, rid, session, current, next)
    case ChangeSaves(session, next, key) =>
      exists current :: Authorised(gs, steps, i, rid, session, current, next) && Unlock(gs[i].disk, current) == Ok(key)
          && CheckLength(next).Ok?
    case _ => true
  }

  ghost predicate Authorised(gs: seq<Gate>, steps: seq<Step>, i: nat, rid: Rid, session: S.Id, current: string,
                             next: string)
    requires i <= |steps| < |gs|
  {
    Arrived(steps, i, rid, ChangeArrives(session, current, next)) && Checked(gs, steps, i, rid, session)
  }

  /** Nobody else replaces the file while a request holds the slot. */
  lemma DiskHeld(g: Gate, s: Step, h: Gate, rid: Rid)
    requires Inv(g) && Next(g, s, h) && rid in g.requests && g.requests[rid].Holds() && h.disk != g.disk
    ensures s.Save? && s.rid == rid && rid in h.requests && h.requests[rid].ChangeSaved?
  {}

  lemma OthersStand(g: Gate, s: Step, h: Gate, rid: Rid)
    requires Next(g, s, h) && rid in h.requests
    requires rid !in g.requests || h.requests[rid] != g.requests[rid]
    ensures !s.SignOut? && !s.Expire? && s.rid == rid
  {}

  lemma HistoryStep(gs: seq<Gate>, steps: seq<Step>, i: nat, rid: Rid)
    requires i < |steps| < |gs| && Inv(gs[i]) && Next(gs[i], steps[i], gs[i + 1]) && rid in gs[i + 1].requests
    requires rid in gs[i].requests ==> History(gs, steps, i, rid)
    ensures History(gs, steps, i + 1, rid)
  {
    hide Inv, Unlock, CheckLength, Arrived, Checked, LookedAt;
    var g, s, h := gs[i], steps[i], gs[i + 1];
    if rid in g.requests && h.requests[rid] == g.requests[rid] {
      StandingStep(gs, steps, i, rid);
    } else {
      OthersStand(g, s, h, rid);
      MovingStep(gs, steps, i, rid);
    }
  }

  lemma StandingStep(gs: seq<Gate>, steps: seq<Step>, i: nat, rid: Rid)
    requires i < |steps| < |gs| && Inv(gs[i]) && Next(gs[i], steps[i], gs[i + 1])
    requires rid in gs[i].requests && rid in gs[i + 1].requests && gs[i].requests[rid] == gs[i + 1].requests[rid]
    requires History(gs, steps, i, rid)
    ensures History(gs, steps, i + 1, rid)
  {
    hide Inv, Next, Unlock, CheckLength, Arrived, Checked, Authorised;
    var phase := gs[i].requests[rid];
    if phase.Holds() && gs[i + 1].disk != gs[i].disk {
      DiskHeld(gs[i], steps[i], gs[i + 1], rid);
    }
    Carried(gs, steps, i, rid);
  }

  lemma MovingStep(gs: seq<Gate>, steps: seq<Step>, i: nat, rid: Rid)
    requires i < |steps| < |gs| && Next(gs[i], steps[i], gs[i + 1])
    requires !steps[i].SignOut? && !steps[i].Expire? && steps[i].rid == rid && rid in gs[i + 1].requests
    requires rid in gs[i].requests ==> History(gs, steps, i, rid)
    ensures History(gs, steps, i + 1, rid)
  {
    hide Unlock, CheckLength, Arrived, Checked, Authorised, OpenedWith;
    var g, s, h := gs[i], steps[i], gs[i + 1];
    match s
    case Arrive(_, phase) =>
      Carried(gs, steps, i, rid);
    case Take(_) =>
      Carried(gs, steps, i, rid);
    case CheckSession(_, now) =>
      Carried(gs, steps, i, rid);
      CheckedNow(gs, steps, i, rid);
    case Derive(_) =>
      Carried(gs, steps, i, rid);
    case _ =>
  }

  /** What had happened still has. */
  lemma Carried(gs: seq<Gate>, steps: seq<Step>, i: nat, rid: Rid)
    requires i < |steps| < |gs|
    ensures forall phase :: Arrived(steps, i, rid, phase) ==> Arrived(steps, i + 1, rid, phase)
    ensures steps[i].Arrive? && steps[i].rid == rid ==> Arrived(steps, i + 1, rid, steps[i].phase)
    ensures forall session, current, next :: Authorised(gs, steps, i, rid, session, current, next) ==>
              Authorised(gs, steps, i + 1, rid, session, current, next)
  {}

  lemma CheckedNow(gs: seq<Gate>, steps: seq<Step>, i: nat, rid: Rid)
    requires i < |steps| < |gs|
    ensures forall session, current, next ::
      LookedAt(gs[i], steps[i], rid, session) && Arrived(steps, i, rid, ChangeArrives(session, current, next)) ==>
        Authorised(gs, steps, i + 1, rid, session, current, next)
  {}

  lemma {:induction false} RunHistory(gs: seq<Gate>, steps: seq<Step>, i: nat, rid: Rid)
    requires Runs(gs, steps) && i < |gs| && rid in gs[i].requests
    ensures History(gs, steps, i, rid)
  {
    hide History, Next, Inv;
    if i > 0 {
      RunKeeps(gs, steps, i - 1);
      if rid in gs[i - 1].requests {
        RunHistory(gs, steps, i - 1, rid);
      }
      HistoryStep(gs, steps, i - 1, rid);
    }
  }

  /** In every interleaving the access file is only ever replaced by a change that arrived with a session
      live at its check, whose new password is fit and whose old one opens the file as it stood; and then
      it is the same data key sealed anew under the new one. */
  lemma FileReplaced(gs: seq<Gate>, steps: seq<Step>, i: nat)
    requires Runs(gs, steps) && i < |steps| && gs[i + 1].disk != gs[i].disk
    ensures steps[i].Save? && steps[i].saved
    ensures exists session, current, next ::
              && Authorised(gs, steps, i, steps[i].rid, session, current, next)
              && CheckLength(next).Ok? && Unlock(gs[i].disk, current).Ok?
              && gs[i + 1].disk ==
                 Holds(Seal(Unlock(gs[i].disk, current).value, next, steps[i].salt, steps[i].nonce))
  {
    hide Unlock, CheckLength, Authorised, Seal, OpenedWith;
    assert Next(gs[i], steps[i], gs[i + 1]);
    RunHistory(gs, steps, i, steps[i].rid);
  }

  /** A session only ever comes by a sign-in that arrived with the password that opens the file as it
      stands, and stays what it was until it goes. */
  lemma SessionComes(gs: seq<Gate>, steps: seq<Step>, i: nat, id: S.Id)
    requires Runs(gs, steps) && i < |steps| && id in gs[i + 1].sessions
    requires id !in gs[i].sessions || gs[i].sessions[id] != gs[i + 1].sessions[id]
    ensures steps[i].OpenSession? && steps[i].id == id
    ensures var password := gs[i + 1].sessions[id].openedWith;
            Arrived(steps, i, steps[i].rid, SignInWaits(password)) && Unlock(gs[i].disk, password).Ok?
  {
    hide Unlock, CheckLength, Authorised, Arrived, Seal;
    assert Next(gs[i], steps[i], gs[i + 1]);
    RunHistory(gs, steps, i, steps[i].rid);
  }
}
