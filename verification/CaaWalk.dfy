/** Finding the CAA policy that governs a name, through several resolvers
    (internal/dnsclient/dnsclient.go; section 3 of RFC 8659). */
module CaaWalk {
  import opened Bytes
  import opened Numbers
  import opened Options
  import opened WireName

  type Server = bytes

  datatype Caa = Caa(critical: bool, tag: bytes, value: bytes)

  datatype Error = NoResolver | Unanswered(reason: int)

  datatype Reply = Reply(records: seq<Caa>, validated: bool, existed: bool)

  datatype Outcome = Answered(reply: Reply) | Failed(error: Error)

  /** One exchange that took place. */
  datatype Exchange = Exchange(server: Server, name: bytes, outcome: Outcome)

  /** The network: what happened so far, and what each next exchange comes to. */
  class Network {
    const answer: (nat, Server, bytes) -> Outcome
    var log: seq<Exchange>

    constructor (answer: (nat, Server, bytes) -> Outcome)
      ensures this.answer == answer && log == []
    {
      this.answer := answer;
      log := [];
    }

    method Send(server: Server, name: bytes) returns (outcome: Outcome)
      modifies this
      ensures log == old(log) + [Exchange(server, name, outcome)]
    {
      outcome := answer(|log|, server, name);
      log := log + [Exchange(server, name, outcome)];
    }
  }

  // ---- Asking one resolver after another ----

  /** Which resolver the `i`-th attempt goes to. */
  function Turn(servers: seq<Server>, chosen: nat, i: nat): Server
    requires servers != []
  {
    servers[Slot(|servers|, chosen, i)]
  }

  function Slot(n: nat, chosen: nat, i: nat): (at: nat)
    requires n > 0
    ensures at < n
  {
    (chosen + i) % n
  }

  /** `tries` attempts in rotation, every one of them but perhaps the last a failure. */
  ghost predicate Rotated(servers: seq<Server>, chosen: nat, name: bytes, tries: seq<Exchange>) {
    && servers != [] && |tries| <= |servers|
    && (forall i :: 0 <= i < |tries| ==> tries[i].server == Turn(servers, chosen, i) && tries[i].name == name)
    && (forall i :: 0 <= i < |tries| - 1 ==> tries[i].outcome.Failed?)
  }

  class ResolverSet {
    const servers: seq<Server>
    var chosen: nat

    constructor (servers: seq<Server>)
      ensures this.servers == servers && chosen == 0
    {
      this.servers := servers;
      chosen := 0;
    }

    /** An answer comes from the resolver that is then remembered; a failure means that
        every resolver was tried once, and the first one's error is what is reported. */
    method Ask(net: Network, name: bytes) returns (outcome: Outcome)
      modifies this, net
      ensures servers == [] ==> outcome == Failed(NoResolver) && net.log == old(net.log) && chosen == old(chosen)
      ensures old(net.log) <= net.log && AskedFor(net.log[|old(net.log)|..], name, outcome)
      ensures Costs(servers, old(chosen), net.log[|old(net.log)|..], outcome)
      ensures servers != [] ==>
                var tries := net.log[|old(net.log)|..];
                && tries != [] && Rotated(servers, old(chosen), name, tries)
                && (outcome.Answered? ==>
                      tries[|tries| - 1].outcome == outcome && chosen == Slot(|servers|, old(chosen), |tries| - 1))
                && (outcome.Failed? ==>
                      |tries| == |servers| && tries[|tries| - 1].outcome.Failed? && outcome == tries[0].outcome
                          && chosen == old(chosen))
    {
      hide Rotated, AskedFor, Costs, Turn, Slot;
      NoTries(servers, chosen, name);
      ghost var tries: seq<Exchange> := [];
      assert net.log == old(net.log) + tries;
      assert net.log[|old(net.log)|..] == [];
      if |servers| == 0 {
        return Failed(NoResolver);
      }
      var first: Option<Error> := None;
      for i := 0 to |servers|
        invariant chosen == old(chosen) && |tries| == i && net.log == old(net.log) + tries
        invariant Rotated(servers, chosen, name, tries) && Failures(tries)
        invariant if i == 0 then first.None? else first.Some? && tries[0].outcome == Failed(first.value)
      {
        var at := (chosen + i) % |servers|;
        TurnHere(servers, chosen, i);
        var r := net.Send(servers[at], name);
        OneMoreTry(servers, chosen, name, tries, r);
        tries := tries + [Exchange(servers[at], name, r)];
        assert net.log[|old(net.log)|..] == tries;
        if r.Answered? {
          chosen := at;
          return r;
        }
        if first.None? {
          first := Some(r.error);
        }
      }
      assert net.log[|old(net.log)|..] == tries;
      NoneAnswered(servers, chosen, name, tries);
      return Failed(first.value);
    }
  }

  ghost predicate Failures(tries: seq<Exchange>) {
    forall j :: 0 <= j < |tries| ==> tries[j].outcome.Failed?
  }

  lemma TurnHere(servers: seq<Server>, chosen: nat, i: nat)
    requires servers != []
    ensures Turn(servers, chosen, i) == servers[(chosen + i) % |servers|]
    ensures Slot(|servers|, chosen, i) == (chosen + i) % |servers|
  {}

  lemma NoneAnswered(servers: seq<Server>, chosen: nat, name: bytes, tries: seq<Exchange>)
    requires servers != [] && Rotated(servers, chosen, name, tries) && Failures(tries) && |tries| == |servers|
    ensures AskedFor(tries, name, tries[0].outcome) && Costs(servers, chosen, tries, tries[0].outcome)
    ensures tries[|tries| - 1].outcome.Failed? && tries[0].outcome.Failed?
  {}

  lemma NoTries(servers: seq<Server>, chosen: nat, name: bytes)
    ensures servers != [] ==> Rotated(servers, chosen, name, [])
    ensures AskedFor([], name, Failed(NoResolver))
    ensures servers == [] ==> Costs(servers, chosen, [], Failed(NoResolver))
  {}

  /** One more try of a rotation in which nothing has answered yet. */
  lemma OneMoreTry(servers: seq<Server>, chosen: nat, name: bytes, tries: seq<Exchange>, r: Outcome)
    requires Rotated(servers, chosen, name, tries) && Failures(tries) && |tries| < |servers|
    ensures var more := tries + [Exchange(Turn(servers, chosen, |tries|), name, r)];
            && Rotated(servers, chosen, name, more) && (r.Failed? ==> Failures(more))
            && (r.Answered? ==> AskedFor(more, name, r) && Costs(servers, chosen, more, r))
  {
    hide Turn;
  }

  /** A full rotation reaches every resolver, and each of them once. */
  lemma RotationOnce(n: nat, chosen: nat, at: nat)
    requires at < n
    ensures exists i :: 0 <= i < n && Slot(n, chosen, i) == at
    ensures forall i, j :: 0 <= i < n && 0 <= j < n && Slot(n, chosen, i) == at && Slot(n, chosen, j) == at ==> i == j
  {
    var c := chosen % n;
    forall k | 0 <= k < n
      ensures Slot(n, chosen, k) == if c + k < n then c + k else c + k - n
    {
      Wraps(n, chosen, k);
    }
    assert Slot(n, chosen, if c <= at then at - c else at - c + n) == at;
  }

  lemma Wraps(n: nat, chosen: nat, k: nat)
    requires k < n
    ensures var c := chosen % n;
            Slot(n, chosen, k) == if c + k < n then c + k else c + k - n
  {
    var q, c := chosen / n, chosen % n;
    var m, s := if c + k < n then q else q + 1, if c + k < n then c + k else c + k - n;
    var x := chosen + k;
    assert chosen == q * n + c;
    assert x == m * n + s;
    ModOf(m, n, s);
  }

  // ---- The walk towards the root ----

  datatype Answer = Answer(records: seq<Caa>, name: bytes, validated: bool, existed: bool, complete: bool, queries: nat)

  /** The `i`-th ancestor of a name, the name itself first. */
  function Ancestor(labels: seq<bytes>, i: nat): bytes
    requires i <= |labels|
  {
    Join(labels[i..])
  }

  function LabelsOf(name: bytes): (labels: seq<bytes>)
    ensures |labels| >= 1
  {
    Split(Trimmed(name))
  }

  function Budget(maxQueries: int): (n: nat)
    ensures n >= 1
  {
    if maxQueries <= 0 then 6 else maxQueries
  }

  /** What the walk comes to from its `i`-th question, given what every question was answered. */
  function Walk(labels: seq<bytes>, budget: nat, replies: seq<Outcome>, i: nat, out: Answer): (Answer, Option<Error>)
    requires i <= |labels| && i <= |replies|
    decreases |labels| - i
  {
    if i == |labels| || i >= budget || i == |replies| then (out, None)
    else
      var asked := out.(queries := i + 1);
      match replies[i]
      case Failed(error) => (asked, Some(error))
      case Answered(r) =>
        var told := asked.(validated := r.validated, existed := if i == 0 then r.existed else out.existed,
                         name := Ancestor(labels, i));
        if r.records != [] then (told.(records := r.records), None)
        else Walk(labels, budget, replies, i + 1, told)
  }

  function Start(labels: seq<bytes>, budget: nat): Answer {
    Answer([], [], false, true, |labels| <= budget, 0)
  }

  /** What a lookup makes of the answers to its questions. */
  function Looked(name: bytes, maxQueries: int, replies: seq<Outcome>): (Answer, Option<Error>) {
    var labels := LabelsOf(name);
    Walk(labels, Budget(maxQueries), replies, 0, Start(labels, Budget(maxQueries)))
  }

  /** What one question cost: attempts for that name alone, the answer being the last
      attempt's, or the first one's error when all failed. */
  ghost predicate AskedFor(tries: seq<Exchange>, name: bytes, outcome: Outcome) {
    if tries == [] then outcome == Failed(NoResolver)
    else
      && (forall e :: e in tries ==> e.name == name)
      && (if outcome.Answered? then tries[|tries| - 1].outcome == outcome
          else tries[0].outcome == outcome && forall e :: e in tries ==> e.outcome.Failed?)
  }

  /** Attempts question by question, end to end. */
  ghost function Flat(asked: seq<seq<Exchange>>): seq<Exchange> {
    if asked == [] then [] else Flat(asked[..|asked| - 1]) + asked[|asked| - 1]
  }

  /** What one question costs, asked while `chosen` is remembered: a rotation that ends with
      the first answer, or that found none. */
  ghost predicate Costs(servers: seq<Server>, chosen: nat, tries: seq<Exchange>, outcome: Outcome) {
    if servers == [] then tries == [] && outcome.Failed?
    else
      && tries != [] && Rotated(servers, chosen, tries[0].name, tries)
      && (if outcome.Answered? then tries[|tries| - 1].outcome == outcome
          else |tries| == |servers| && tries[|tries| - 1].outcome.Failed?)
  }

  /** Which resolver is remembered after some questions. */
  ghost function ChosenAfter(servers: seq<Server>, chosen: nat, asked: seq<seq<Exchange>>, replies: seq<Outcome>): nat
    requires |asked| == |replies|
  {
    if asked == [] then chosen
    else
      var n := |asked| - 1;
      var before := ChosenAfter(servers, chosen, asked[..n], replies[..n]);
      if servers != [] && asked[n] != [] && replies[n].Answered? then
        Slot(|servers|, before, |asked[n]| - 1)
      else before
  }

  /** Every question starts with the resolver the one before it remembered. */
  ghost predicate InTurn(servers: seq<Server>, chosen: nat, asked: seq<seq<Exchange>>, replies: seq<Outcome>) {
    |asked| == |replies| && (
      asked == [] ||
      (var n := |asked| - 1;
       && InTurn(servers, chosen, asked[..n], replies[..n])
       && Costs(servers, ChosenAfter(servers, chosen, asked[..n], replies[..n]), asked[n], replies[n])))
  }

  lemma InTurnMore(servers: seq<Server>, chosen: nat, asked: seq<seq<Exchange>>, replies: seq<Outcome>,
                   tries: seq<Exchange>, outcome: Outcome)
    requires InTurn(servers, chosen, asked, replies)
    requires Costs(servers, ChosenAfter(servers, chosen, asked, replies), tries, outcome)
    ensures InTurn(servers, chosen, asked + [tries], replies + [outcome])
    ensures var before := ChosenAfter(servers, chosen, asked, replies);
            ChosenAfter(servers, chosen, asked + [tries], replies + [outcome]) ==
            if outcome.Answered? then Slot(|servers|, before, |tries| - 1) else before
  {
    assert (asked + [tries])[..|asked|] == asked && (replies + [outcome])[..|replies|] == replies;
  }

  /** One question after another, up the tree. */
  ghost predicate AskedUp(asked: seq<seq<Exchange>>, labels: seq<bytes>, replies: seq<Outcome>) {
    && |asked| == |replies| <= |labels|
    && forall i :: 0 <= i < |asked| ==> AskedFor(asked[i], Ancestor(labels, i), replies[i])
  }

  /** Nothing was left to ask, or nothing had to be. */
  predicate Finished(name: bytes, maxQueries: int, out: Answer, error: Option<Error>) {
    error.Some? || out.records != [] || out.queries == |LabelsOf(name)| || out.queries == Budget(maxQueries)
  }

  /** What the questions so far amount to: the log they left and the resolver they chose. */
  ghost predicate Account(log: seq<Exchange>, chosen: nat, servers: seq<Server>, from: seq<Exchange>, first: nat,
                          labels: seq<bytes>, asked: seq<seq<Exchange>>, replies: seq<Outcome>) {
    && log == from + Flat(asked) && AskedUp(asked, labels, replies)
    && InTurn(servers, first, asked, replies) && chosen == ChosenAfter(servers, first, asked, replies)
  }

  lemma NoAccount(log: seq<Exchange>, chosen: nat, servers: seq<Server>, labels: seq<bytes>)
    ensures Account(log, chosen, servers, log, chosen, labels, [], [])
  {}

  /** The next question up the tree. */
  method AskNext(net: Network, resolvers: ResolverSet, ghost labels: seq<bytes>, ghost i: nat, at: bytes,
                 ghost from: seq<Exchange>, ghost first: nat,
                 ghost asked: seq<seq<Exchange>>, ghost replies: seq<Outcome>)
    returns (outcome: Outcome, ghost tries: seq<Exchange>)
    requires i == |asked| == |replies| < |labels| && at == Ancestor(labels, i)
    requires Account(net.log, resolvers.chosen, resolvers.servers, from, first, labels, asked, replies)
    modifies net, resolvers
    ensures Account(net.log, resolvers.chosen, resolvers.servers, from, first, labels, asked + [tries],
        replies + [outcome])
  {
    hide AskedFor, AskedUp, Flat, Costs, InTurn, ChosenAfter, Rotated, Slot;
    ghost var before := net.log;
    outcome := resolvers.Ask(net, at);
    tries := net.log[|before|..];
    FlatMore(net.log, from, asked, tries);
    AskedUpMore(asked, labels, replies, tries, outcome);
    InTurnMore(resolvers.servers, first, asked, replies, tries, outcome);
  }

  method LookupCaa(net: Network, resolvers: ResolverSet, name: bytes, maxQueries: int)
    returns (out: Answer, error: Option<Error>, ghost replies: seq<Outcome>, ghost asked: seq<seq<Exchange>>)
    modifies net, resolvers
    ensures |replies| == out.queries && (out, error) == Looked(name, maxQueries, replies)
    ensures Finished(name, maxQueries, out, error)
    ensures Account(net.log, resolvers.chosen, resolvers.servers, old(net.log), old(resolvers.chosen), LabelsOf(name),
        asked, replies)
  {
    hide Walk, Account, Split;
    var labels := Split(Trimmed(name));
    var budget := Budget(maxQueries);
    out := Answer([], [], false, true, |labels| <= budget, 0);
    error, replies := None, [];
    asked := [];
    NoAccount(net.log, resolvers.chosen, resolvers.servers, labels);
    ghost var outs := [out];
    var i := 0;
    while i < |labels| && out.queries < budget
      invariant 0 <= i <= |labels| && out.queries == i == |replies| == |asked| && i <= budget && out.records == []
      invariant |outs| == i + 1 && outs[0] == Start(labels, budget) && outs[i] == out
      invariant forall j :: 0 <= j < i ==> Continues(labels, replies[j], j, outs[j], outs[j + 1])
      invariant Account(net.log, resolvers.chosen, resolvers.servers, old(net.log), old(resolvers.chosen), labels,
          asked, replies)
      decreases |labels| - i
    {
      var at := Join(labels[i..]);
      ghost var tries;
      var outcome;
      outcome, tries := AskNext(net, resolvers, labels, i, at, old(net.log), old(resolvers.chosen), asked, replies);
      asked := asked + [tries];
      out := out.(queries := out.queries + 1);
      replies := replies + [outcome];
      if outcome.Failed? {
        error := Some(outcome.error);
        WalkAlong(labels, budget, replies, outs, i);
        WalkStops(labels, budget, replies, i, outs[i]);
        return;
      }
      var r := outcome.reply;
      out := out.(validated := r.validated);
      if i == 0 {
        out := out.(existed := r.existed);
      }
      if |r.records| > 0 {
        out := out.(records := r.records);
        out := out.(name := at);
        WalkAlong(labels, budget, replies, outs, i);
        WalkStops(labels, budget, replies, i, outs[i]);
        return;
      }
      out := out.(name := at);
      outs := outs + [out];
      i := i + 1;
    }
    WalkAlong(labels, budget, replies, outs, i);
    WalkStops(labels, budget, replies, i, out);
  }

  lemma WalkStops(labels: seq<bytes>, budget: nat, replies: seq<Outcome>, i: nat, out: Answer)
    requires i <= |labels| && i <= |replies|
    ensures i == |labels| || i >= budget || i == |replies| ==> Walk(labels, budget, replies, i, out) == (out, None)
    ensures i < |labels| && i < budget && i < |replies| ==>
              var asked := out.(queries := i + 1);
              match replies[i]
              case Failed(error) => Walk(labels, budget, replies, i, out) == (asked, Some(error))
              case Answered(r) =>
                var told := asked.(validated := r.validated, existed := if i == 0 then r.existed else out.existed,
                                 name := Ancestor(labels, i));
                r.records != [] ==> Walk(labels, budget, replies, i, out) == (told.(records := r.records), None)
  {}

  lemma AskedUpMore(asked: seq<seq<Exchange>>, labels: seq<bytes>, replies: seq<Outcome>, tries: seq<Exchange>,
                    outcome: Outcome)
    requires AskedUp(asked, labels, replies) && |asked| < |labels|
        && AskedFor(tries, Ancestor(labels, |asked|), outcome)
    ensures AskedUp(asked + [tries], labels, replies + [outcome])
  {
    hide AskedFor;
  }

  lemma FlatMore(log: seq<Exchange>, start: seq<Exchange>, asked: seq<seq<Exchange>>, tries: seq<Exchange>)
    requires log == start + Flat(asked) + tries
    ensures log == start + Flat(asked + [tries])
  {
    var more := asked + [tries];
    assert more[..|more| - 1] == asked;
  }

  /** One question that found nothing and left the walk to go on. */
  ghost predicate Continues(labels: seq<bytes>, reply: Outcome, i: nat, out: Answer, next: Answer)
    requires i <= |labels|
  {
    && reply.Answered? && reply.reply.records == []
    && next == out.(queries := i + 1, validated := reply.reply.validated,
                    existed := if i == 0 then reply.reply.existed else out.existed, name := Ancestor(labels, i))
  }

  lemma {:induction false} WalkAlong(labels: seq<bytes>, budget: nat, replies: seq<Outcome>, outs: seq<Answer>, i: nat)
    requires i <= |labels| && i <= |replies| && i <= budget && |outs| == i + 1
    requires forall j :: 0 <= j < i ==> Continues(labels, replies[j], j, outs[j], outs[j + 1])
    ensures Walk(labels, budget, replies, 0, outs[0]) == Walk(labels, budget, replies, i, outs[i])
  {
    if i > 0 {
      WalkAlong(labels, budget, replies, outs[..i], i - 1);
      assert Continues(labels, replies[i - 1], i - 1, outs[i - 1], outs[i]);
    }
  }

  // ---- What the answer means ----

  /** Every reply so far was an answer with no policy in it. */
  ghost predicate Empty(replies: seq<Outcome>, n: nat) {
    n <= |replies| && forall j :: 0 <= j < n ==> replies[j].Answered? && replies[j].reply.records == []
  }

  lemma {:induction false} WalkMeans(labels: seq<bytes>, budget: nat, replies: seq<Outcome>, i: nat, out: Answer)
    requires i <= |labels| && i <= |replies| && i <= budget && out.queries == i && out.records == []
        && Empty(replies, i)
    ensures var (end, error) := Walk(labels, budget, replies, i, out);
            && end.complete == out.complete && i <= end.queries <= |replies| && end.queries <= |labels|
                && end.queries <= budget
            && (error.Some? ==>
                end.queries > i && Empty(replies, end.queries - 1) && replies[end.queries - 1] == Failed(error.value)
                && end.records == [])
            && (error.None? && end.queries > i ==>
                  && replies[end.queries - 1].Answered? && end.name == Ancestor(labels, end.queries - 1)
                  && end.validated == replies[end.queries - 1].reply.validated)
            && (end.queries == i ==> end == out)
            && end.existed == (if i == 0 && end.queries > 0 && replies[0].Answered? then replies[0].reply.existed
                               else out.existed)
            && (error.None? && end.records != [] ==>
                  && end.queries > i && Empty(replies, end.queries - 1) && replies[end.queries - 1].Answered?
                  && end.records == replies[end.queries - 1].reply.records
                      && end.name == Ancestor(labels, end.queries - 1))
            && (error.None? && end.records == [] ==>
                  Empty(replies, end.queries)
                      && (end.queries == |labels| || end.queries == budget || end.queries == |replies|))
    decreases |labels| - i
  {
    hide Walk;
    WalkStops(labels, budget, replies, i, out);
    if i < |labels| && i < budget && i < |replies| && replies[i].Answered? && replies[i].reply.records == [] {
      var r := replies[i].reply;
      var told := out.(queries := i + 1, validated := r.validated, existed := if i == 0 then r.existed else out.existed,
                       name := Ancestor(labels, i));
      WalkOn(labels, budget, replies, i, out, told);
      WalkMeans(labels, budget, replies, i + 1, told);
    }
  }

  lemma WalkOn(labels: seq<bytes>, budget: nat, replies: seq<Outcome>, i: nat, out: Answer, told: Answer)
    requires i < |labels| && i < |replies| && i < budget && Continues(labels, replies[i], i, out, told)
    ensures Walk(labels, budget, replies, i, out) == Walk(labels, budget, replies, i + 1, told)
  {}

  // ---- The names that are asked ----

  /** What follows the first dot. */
  function AfterDot(text: bytes): Option<bytes> {
    if text == [] then None else if text[0] == DOT then Some(text[1..]) else AfterDot(text[1..])
  }

  function Dots(text: bytes): nat {
    if text == [] then 0 else (if text[0] == DOT then 1 else 0) + Dots(text[1..])
  }

  /** The name `i` steps up: each is what follows the first dot of the one before it. */
  function Up(text: bytes, i: nat): Option<bytes>
    decreases i
  {
    if i == 0 then Some(text)
    else
      match AfterDot(text)
      case None => None
      case Some(rest) => Up(rest, i - 1)
  }

  /** A name spelled with its last dot or without. */
  predicate Spells(name: bytes, text: bytes) {
    name == text + [DOT] || (name == text && (text == [] || text[|text| - 1] != DOT))
  }

  lemma SpelledText(name: bytes, text: bytes)
    requires Spells(name, text)
    ensures Trimmed(name) == text
  {
    assert (text + [DOT])[..|text|] == text;
  }

  lemma {:induction false} SplitDots(text: bytes)
    ensures |Split(text)| == Dots(text) + 1
    ensures Join(Split(text)) == text
    ensures match AfterDot(text)
            case None => |Split(text)| == 1
            case Some(rest) => Split(text)[1..] == Split(rest)
  {
    SplitJoin(text);
    if text != [] {
      SplitDots(text[1..]);
    }
  }

  /** The labels from the `i`-th on, joined, are the name `i` steps up; there are as many
      names to ask as dots and one. */
  lemma {:induction false} LabelsUp(text: bytes, i: nat)
    ensures |Split(text)| == Dots(text) + 1
    ensures i < |Split(text)| ==> Up(text, i) == Some(Join(Split(text)[i..]))
    ensures i >= |Split(text)| ==> Up(text, i) == None
    decreases i
  {
    var labels := Split(text);
    SplitDots(text);
    if i == 0 {
      assert labels[0..] == labels;
    } else {
      match AfterDot(text)
      case None =>
      case Some(rest) =>
        LabelsUp(rest, i - 1);
        if i < |labels| {
          assert labels[1..][i - 1..] == labels[i..];
        }
    }
  }

  lemma AncestorUp(name: bytes, text: bytes, i: nat)
    requires Spells(name, text)
    ensures |LabelsOf(name)| == Dots(text) + 1
    ensures i < |LabelsOf(name)| ==> Up(text, i) == Some(Ancestor(LabelsOf(name), i))
    ensures i >= |LabelsOf(name)| ==> Up(text, i) == None
  {
    SpelledText(name, text);
    LabelsUp(text, i);
  }

  /** The `i`-th question was asked of the name `i` steps up, and there was one. */
  ghost predicate AskedInTurn(asked: seq<seq<Exchange>>, text: bytes, replies: seq<Outcome>) {
    && |asked| == |replies| <= Dots(text) + 1
    && forall i :: 0 <= i < |asked| ==> Up(text, i).Some? && AskedFor(asked[i], Up(text, i).value, replies[i])
  }

  /** The names a lookup asks, the name itself first. */
  lemma NamesAsked(name: bytes, text: bytes, asked: seq<seq<Exchange>>, replies: seq<Outcome>)
    requires Spells(name, text) && AskedUp(asked, LabelsOf(name), replies)
    ensures AskedInTurn(asked, text, replies)
  {
    hide LabelsOf, AskedFor, Ancestor, Up;
    AncestorUp(name, text, 0);
    forall i | 0 <= i < |asked|
      ensures Up(text, i).Some? && AskedFor(asked[i], Up(text, i).value, replies[i])
    {
      AncestorUp(name, text, i);
    }
  }

  /** The policy that governs a name: that of the nearest name up from it, itself first and
      the root left out, that has any, and which name that is. */
  function Governing(text: bytes, zone: bytes -> seq<Caa>): Option<(bytes, seq<Caa>)>
    decreases |text|
  {
    if zone(text) != [] then Some((text, zone(text)))
    else
      match AfterDot(text)
      case None => None
      case Some(rest) =>
        AfterDotShorter(text);
        Governing(rest, zone)
  }

  lemma {:induction false} AfterDotShorter(text: bytes)
    ensures AfterDot(text).Some? ==> |AfterDot(text).value| < |text|
  {
    if text != [] {
      AfterDotShorter(text[1..]);
    }
  }

  /** The resolvers told the truth: each answer carried what the zone holds at that name. */
  ghost predicate Truthful(text: bytes, zone: bytes -> seq<Caa>, replies: seq<Outcome>) {
    forall j :: 0 <= j < |replies| && replies[j].Answered? ==>
      Up(text, j).Some? && replies[j].reply.records == zone(Up(text, j).value)
  }

  lemma {:induction false} SkipEmpty(text: bytes, zone: bytes -> seq<Caa>, n: nat)
    requires forall j :: 0 <= j < n ==> Up(text, j).Some? && zone(Up(text, j).value) == []
    ensures match Up(text, n)
            case None => n > 0 && Governing(text, zone) == None
            case Some(rest) => Governing(text, zone) == Governing(rest, zone)
    decreases n
  {
    if n > 0 {
      assert Up(text, 0) == Some(text) && zone(text) == [];
      match AfterDot(text)
      case None =>
      case Some(rest) =>
        forall j | 0 <= j < n - 1
          ensures Up(rest, j).Some? && zone(Up(rest, j).value) == []
        {
          assert Up(text, j + 1) == Up(rest, j);
        }
        SkipEmpty(rest, zone, n - 1);
    }
  }

  /** A lookup that reports no error found the governing policy, and the name it stands at, if
      it found any. If it found none and calls itself complete, every name up was asked and
      none is governed. It never asks more than its budget, six unless told otherwise, and
      calls itself complete exactly when that reaches every name. Whether the name exists is
      what the first answer said, whether the policy is validated what the last one did. */
  lemma LookupMeans(name: bytes, text: bytes, maxQueries: int, replies: seq<Outcome>, zone: bytes -> seq<Caa>)
    requires Spells(name, text)
    requires var (out, error) := Looked(name, maxQueries, replies);
             && |replies| == out.queries && Finished(name, maxQueries, out, error)
             && error.None? && Truthful(text, zone, replies)
    ensures var (out, _) := Looked(name, maxQueries, replies);
            var budget := if maxQueries <= 0 then 6 else maxQueries;
            && 1 <= out.queries <= budget && (out.complete <==> Dots(text) + 1 <= budget)
            && Up(text, out.queries - 1) == Some(out.name)
            && replies[0].Answered? && out.existed == replies[0].reply.existed
            && replies[out.queries - 1].Answered? && out.validated == replies[out.queries - 1].reply.validated
            && (out.records != [] ==> Governing(text, zone) == Some((out.name, out.records)))
            && (out.records == [] && out.complete ==> out.queries == Dots(text) + 1 && Governing(text, zone) == None)
            && (out.records == [] && !out.complete ==>
                  && out.queries == budget && Up(text, budget).Some?
                  && Governing(text, zone) == Governing(Up(text, budget).value, zone))
  {
    hide Walk, LabelsOf, Ancestor, Governing, Up;
    var labels, budget := LabelsOf(name), Budget(maxQueries);
    var (out, _) := Looked(name, maxQueries, replies);
    WalkMeans(labels, budget, replies, 0, Start(labels, budget));
    var n := if out.records != [] then out.queries - 1 else out.queries;
    AncestorUp(name, text, n);
    AncestorUp(name, text, out.queries - 1);
    forall j | 0 <= j < n
      ensures Up(text, j).Some? && zone(Up(text, j).value) == []
    {
      AncestorUp(name, text, j);
    }
    SkipEmpty(text, zone, n);
    if out.records != [] {
      GovernsHere(Up(text, n).value, zone);
    }
  }

  lemma GovernsHere(text: bytes, zone: bytes -> seq<Caa>)
    ensures zone(text) != [] ==> Governing(text, zone) == Some((text, zone(text)))
  {}

  // ---- What a dead resolver costs ----

  /** Each resolver always answers or never does. */
  ghost predicate Steady(log: seq<Exchange>, alive: set<Server>) {
    forall e :: e in log ==> (e.outcome.Answered? <==> e.server in alive)
  }

  lemma SteadyParts(a: seq<Exchange>, b: seq<Exchange>, alive: set<Server>)
    ensures Steady(a + b, alive) <==> Steady(a, alive) && Steady(b, alive)
  {
    assert forall e :: e in a + b <==> e in a || e in b;
  }

  /** A question asked of a resolver that answers costs one exchange; another ends with a
      resolver that answers, or with none. */
  lemma SteadyCost(servers: seq<Server>, chosen: nat, tries: seq<Exchange>, outcome: Outcome, alive: set<Server>)
    requires servers != [] && Costs(servers, chosen, tries, outcome) && Steady(tries, alive)
    ensures 1 <= |tries| <= |servers|
    ensures Turn(servers, chosen, 0) in alive ==> |tries| == 1
    ensures outcome.Answered? ==> Turn(servers, Slot(|servers|, chosen, |tries| - 1), 0) in alive
  {
    assert tries[0] in tries && tries[0].server == Turn(servers, chosen, 0);
    assert tries[|tries| - 1] in tries && tries[|tries| - 1].server == Turn(servers, chosen, |tries| - 1);
    SlotAgain(|servers|, chosen, |tries| - 1);
  }

  lemma SlotAgain(n: nat, chosen: nat, i: nat)
    requires n > 0
    ensures Slot(n, Slot(n, chosen, i), 0) == Slot(n, chosen, i)
  {
    ModOf(0, n, Slot(n, chosen, i));
  }

  lemma {:induction false} CostBound(servers: seq<Server>, chosen: nat, asked: seq<seq<Exchange>>,
                                     replies: seq<Outcome>, alive: set<Server>)
    requires servers != [] && asked != [] && InTurn(servers, chosen, asked, replies) && Steady(Flat(asked), alive)
    requires forall j :: 0 <= j < |replies| - 1 ==> replies[j].Answered?
    ensures |Flat(asked)| <= |asked| + |servers| - 1
    ensures replies[|replies| - 1].Answered? ==> Turn(servers, ChosenAfter(servers, chosen, asked, replies), 0) in alive
  {
    hide Costs, Slot, Turn, Steady;
    var n := |asked| - 1;
    SteadyParts(Flat(asked[..n]), asked[n], alive);
    SteadyCost(servers, ChosenAfter(servers, chosen, asked[..n], replies[..n]), asked[n], replies[n], alive);
    if n > 0 {
      CostBound(servers, chosen, asked[..n], replies[..n], alive);
    } else {
      assert asked[..0] == [] && replies[..0] == [];
    }
  }

  /** A dead resolver is paid for once: where each resolver always answers or never does, a
      whole lookup takes one exchange for each question and one more for each resolver but
      one, however many questions it asks. */
  lemma DeadPaidOnce(name: bytes, maxQueries: int, servers: seq<Server>, chosen: nat,
                     asked: seq<seq<Exchange>>, replies: seq<Outcome>, alive: set<Server>)
    requires servers != [] && InTurn(servers, chosen, asked, replies) && Steady(Flat(asked), alive)
    requires var (out, error) := Looked(name, maxQueries, replies);
             |replies| == out.queries && Finished(name, maxQueries, out, error)
    ensures |Flat(asked)| <= Looked(name, maxQueries, replies).0.queries + |servers| - 1
  {
    hide Looked;
    var labels, budget := LabelsOf(name), Budget(maxQueries);
    assert Looked(name, maxQueries, replies) == Walk(labels, budget, replies, 0, Start(labels, budget)) by {
      LookedHere(name, maxQueries, replies);
    }
    WalkMeans(labels, budget, replies, 0, Start(labels, budget));
    if asked != [] {
      CostBound(servers, chosen, asked, replies, alive);
    }
  }

  lemma LookedHere(name: bytes, maxQueries: int, replies: seq<Outcome>)
    ensures var labels, budget := LabelsOf(name), Budget(maxQueries);
            Looked(name, maxQueries, replies) == Walk(labels, budget, replies, 0, Start(labels, budget))
  {}
}
