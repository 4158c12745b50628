/** What the service counts, as values, and what every run makes of them
    (internal/httpapi/counters.go). */
module Tallies {
  import opened Options

  const CHECK_NAMES: seq<string> := ["tls", "web", "mail"]

  const REFUSAL_CODES: seq<string> := [
    "rate_limited", "target_busy", "too_busy", "blocked_destination", "invalid_target",
    "hostname_required", "port_not_allowed", "port_not_accepted", "bad_request",
    "payload_too_large", "unsupported_media", "cross_site", "excluded", "timeout",
    "scan_failed", "not_demonstrated", "not_verified"]

  datatype Verdict = Strong | Weak | Insecure | Ungraded

  datatype CheckCounts = CheckCounts(
    policy: string, total: nat, strong: nat, weak: nat, insecure: nat, ungraded: nat, today: nat)

  const NO_COUNTS := CheckCounts("", 0, 0, 0, 0, 0, 0)

  datatype Figures = Figures(
    total: nat, strong: nat, weak: nat, insecure: nat, ungraded: nat,
    refused: map<string, nat>, checks: map<string, CheckCounts>,
    today: nat, todayDate: string, since: string)

  function Of(checks: map<string, CheckCounts>, name: string): CheckCounts {
    if name in checks then checks[name] else NO_COUNTS
  }

  function Refusals(refused: map<string, nat>, code: string): nat {
    if code in refused then refused[code] else 0
  }

  /** The rule set each check is graded by now. */
  function PolicyOf(name: string, before: string): string {
    match name
    case "tls" => "porch-tls-v7"
    case "web" => "porch-web-v3"
    case "mail" => "porch-mail-v1"
    case _ => before
  }

  // ---- One step ----

  function Counted(c: CheckCounts, verdict: Verdict): CheckCounts {
    var d := c.(total := c.total + 1, today := c.today + 1);
    match verdict
    case Strong => d.(strong := c.strong + 1)
    case Weak => d.(weak := c.weak + 1)
    case Insecure => d.(insecure := c.insecure + 1)
    case Ungraded => d.(ungraded := c.ungraded + 1)
  }

  function NewDay(checks: map<string, CheckCounts>): map<string, CheckCounts> {
    map name | name in checks :: checks[name].(today := 0)
  }

  function Recorded(f: Figures, check: string, verdict: Verdict, day: string): Figures {
    if check !in CHECK_NAMES then f
    else
      var g := if f.todayDate == day then f else f.(todayDate := day, today := 0, checks := NewDay(f.checks));
      g.(checks := g.checks[check := Counted(Of(g.checks, check), verdict)])
  }

  function RefusedOnce(f: Figures, code: string): Figures {
    if code !in REFUSAL_CODES then f else f.(refused := f.refused[code := Refusals(f.refused, code) + 1])
  }

  function Projected(f: Figures): Figures {
    var tls := Of(f.checks, "tls");
    f.(total := tls.total, strong := tls.strong, weak := tls.weak, insecure := tls.insecure,
       ungraded := tls.ungraded, today := tls.today)
  }

  function Stamped(checks: map<string, CheckCounts>): map<string, CheckCounts> {
    map name | name in checks :: checks[name].(policy := PolicyOf(name, checks[name].policy))
  }

  /** The live figures, as they are read on `day`. */
  function Snapshotted(f: Figures, day: string): Figures {
    var g := if f.todayDate == day then f else f.(todayDate := day, checks := NewDay(f.checks));
    Projected(g.(checks := Stamped(g.checks)))
  }

  function KnownChecks(checks: map<string, CheckCounts>): map<string, CheckCounts> {
    map name | name in checks && name in CHECK_NAMES :: checks[name].(policy := "")
  }

  function KnownCodes(refused: map<string, nat>): map<string, nat> {
    map code | code in refused && code in REFUSAL_CODES :: refused[code]
  }

  /** The checks of a file, those of before there were blocks being the TLS check's. */
  function FileChecks(s: Figures): map<string, CheckCounts> {
    var known := KnownChecks(s.checks);
    if "tls" !in known && s.total > 0 then
      known["tls" := CheckCounts("", s.total, s.strong, s.weak, s.insecure, s.ungraded, s.today)]
    else known
  }

  /** Figures `f` after a file holding `s` is read back on `day`. */
  function Restored(f: Figures, s: Figures, day: string): Figures {
    var checks := if s.todayDate == day then FileChecks(s) else NewDay(FileChecks(s));
    f.(checks := checks, refused := KnownCodes(s.refused),
       since := if s.since != "" then s.since else f.since,
       todayDate := if s.todayDate == day then day else f.todayDate)
  }

  function Fresh(day: string): Figures {
    Figures(0, 0, 0, 0, 0, map[], map[], 0, day, day)
  }

  // ---- What every step keeps ----

  predicate Balanced(c: CheckCounts) {
    c.total == c.strong + c.weak + c.insecure + c.ungraded && c.today <= c.total
  }

  ghost predicate Sound(f: Figures) {
    && (forall name :: name in f.checks ==> name in CHECK_NAMES && Balanced(f.checks[name]))
    && (forall code :: code in f.refused ==> code in REFUSAL_CODES)
  }

  lemma FreshSound(day: string)
    ensures Sound(Fresh(day))
  {}

  lemma RecordedSound(f: Figures, check: string, verdict: Verdict, day: string)
    requires Sound(f)
    ensures Sound(Recorded(f, check, verdict, day))
  {}

  lemma RefusedSound(f: Figures, code: string)
    requires Sound(f)
    ensures Sound(RefusedOnce(f, code))
  {}

  /** The columns add up, and on the file's own day the day's figure is no more than the total. */
  predicate Fits(c: CheckCounts, sameDay: bool) {
    Balanced(if sameDay then c else c.(today := 0))
  }

  /** What is taken from a file. */
  ghost predicate FileFits(s: Figures, sameDay: bool) {
    && (forall name :: name in s.checks && name in CHECK_NAMES ==> Fits(s.checks[name], sameDay))
    && ("tls" !in s.checks && s.total > 0 ==>
          Fits(CheckCounts("", s.total, s.strong, s.weak, s.insecure, s.ungraded, s.today), sameDay))
  }

  lemma FileTaken(s: Figures, sameDay: bool)
    ensures FileFits(s, sameDay) <==>
            forall name :: name in FileChecks(s) ==> Fits(FileChecks(s)[name], sameDay)
    ensures forall name :: name in FileChecks(s) ==> name in CHECK_NAMES
  {
    var taken := FileChecks(s);
    assert CHECK_NAMES[0] == "tls";
    if "tls" !in s.checks && s.total > 0 {
      assert "tls" in taken
          && taken["tls"] == CheckCounts("", s.total, s.strong, s.weak, s.insecure, s.ungraded, s.today);
    }
    forall name | name in s.checks && name in CHECK_NAMES
      ensures name in taken && (Fits(taken[name], sameDay) <==> Fits(s.checks[name], sameDay))
    {
    }
  }

  /** A file is read back sound exactly when what is taken from it is. */
  lemma RestoredSound(f: Figures, s: Figures, day: string)
    ensures Sound(Restored(f, s, day)) <==> FileFits(s, s.todayDate == day)
  {
    hide FileChecks, FileFits, Balanced, CHECK_NAMES;
    var g, taken := Restored(f, s, day), FileChecks(s);
    FileTaken(s, s.todayDate == day);
    forall name | name in taken
      ensures name in g.checks && (Balanced(g.checks[name]) <==> Fits(taken[name], s.todayDate == day))
    {
    }
  }

  // ---- Whole runs ----

  datatype Event =
    | Scan(check: string, verdict: Verdict, day: string)
    | Refusal(code: string)

  function Next(f: Figures, e: Event): Figures {
    match e
    case Scan(check, verdict, day) => Recorded(f, check, verdict, day)
    case Refusal(code) => RefusedOnce(f, code)
  }

  function After(f: Figures, events: seq<Event>): Figures {
    if events == [] then f else Next(After(f, events[..|events| - 1]), events[|events| - 1])
  }

  /** How many scans of a check there were, of one verdict or of any. */
  function Scans(events: seq<Event>, check: string, verdict: Option<Verdict>): nat {
    if events == [] then 0
    else
      var e := events[|events| - 1];
      Scans(events[..|events| - 1], check, verdict)
      + if e.Scan? && e.check == check && (verdict.None? || e.verdict == verdict.value) then 1 else 0
  }

  function Refused(events: seq<Event>, code: string): nat {
    if events == [] then 0
    else Refused(events[..|events| - 1], code) + if events[|events| - 1] == Refusal(code) then 1 else 0
  }

  /** The scans of a check in the unbroken stretch of `day` that ends the run, on top of the
      figure it started with if nothing broke the stretch. */
  function ScansToday(f: Figures, events: seq<Event>, check: string, day: string): nat {
    if events == [] then if f.todayDate == day then Of(f.checks, check).today else 0
    else
      var before, e := events[..|events| - 1], events[|events| - 1];
      if !e.Scan? || e.check !in CHECK_NAMES then ScansToday(f, before, check, day)
      else if e.day != day then 0
      else ScansToday(f, before, check, day) + if e.check == check then 1 else 0
  }

  /** What a run adds to the columns. */
  ghost predicate Tells(f: Figures, events: seq<Event>, check: string) {
    var now, was := Of(After(f, events).checks, check), Of(f.checks, check);
    && now.total == was.total + Scans(events, check, None)
    && now.strong == was.strong + Scans(events, check, Some(Strong))
    && now.weak == was.weak + Scans(events, check, Some(Weak))
    && now.insecure == was.insecure + Scans(events, check, Some(Insecure))
    && now.ungraded == was.ungraded + Scans(events, check, Some(Ungraded))
  }

  lemma {:induction false} RunTells(f: Figures, events: seq<Event>, check: string)
    requires check in CHECK_NAMES
    ensures Tells(f, events, check)
  {
    hide CHECK_NAMES, After;
    if events != [] {
      var before, e := events[..|events| - 1], events[|events| - 1];
      RunTells(f, before, check);
      AfterLast(f, events);
      ColumnsMove(After(f, before), e, check);
    } else {
      AfterNothing(f);
    }
  }

  lemma AfterLast(f: Figures, events: seq<Event>)
    requires events != []
    ensures After(f, events) == Next(After(f, events[..|events| - 1]), events[|events| - 1])
  {}

  lemma AfterNothing(f: Figures)
    ensures After(f, []) == f
  {}

  lemma ColumnsMove(f: Figures, e: Event, check: string)
    requires check in CHECK_NAMES
    ensures var now, was := Of(Next(f, e).checks, check), Of(f.checks, check);
            if e.Scan? && e.check == check then now.(today := 0) == Counted(was, e.verdict).(today := 0)
            else now.(today := 0) == was.(today := 0)
  {
    hide CHECK_NAMES;
  }

  /** And to the day's. */
  lemma {:induction false} RunToday(f: Figures, events: seq<Event>, check: string)
    requires check in CHECK_NAMES
    ensures var g := After(f, events);
            Of(g.checks, check).today == ScansToday(f, events, check, g.todayDate)
  {
    hide CHECK_NAMES;
    if events != [] {
      var before, e := events[..|events| - 1], events[|events| - 1];
      RunToday(f, before, check);
      if e.Scan? && e.day != After(f, before).todayDate {
        DayOver(f, before, check, e.day);
      }
    }
  }

  lemma {:induction false} DayOver(f: Figures, events: seq<Event>, check: string, day: string)
    requires After(f, events).todayDate != day
    ensures ScansToday(f, events, check, day) == 0
  {
    if events != [] {
      var before, e := events[..|events| - 1], events[|events| - 1];
      if !e.Scan? || e.check !in CHECK_NAMES {
        DayOver(f, before, check, day);
      }
    }
  }

  lemma {:induction false} RunRefuses(f: Figures, events: seq<Event>, code: string)
    requires code in REFUSAL_CODES
    ensures Refusals(After(f, events).refused, code) == Refusals(f.refused, code) + Refused(events, code)
  {
    if events != [] {
      RunRefuses(f, events[..|events| - 1], code);
    }
  }

  lemma {:induction false} RunSound(f: Figures, events: seq<Event>)
    requires Sound(f)
    ensures Sound(After(f, events))
  {
    if events != [] {
      var before := After(f, events[..|events| - 1]);
      RunSound(f, events[..|events| - 1]);
      match events[|events| - 1]
      case Scan(check, verdict, day) => RecordedSound(before, check, verdict, day);
      case Refusal(code) => RefusedSound(before, code);
    }
  }

  /** A check has figures exactly if it started with some or was scanned since. */
  lemma {:induction false} KeysAppear(f: Figures, events: seq<Event>, check: string)
    ensures check in After(f, events).checks <==>
            check in f.checks || (check in CHECK_NAMES && Scans(events, check, None) > 0)
  {
    if events != [] {
      KeysAppear(f, events[..|events| - 1], check);
    }
  }

  /** What is read on `day` after any run: every scan is in one column and in the total, the
      day's scans are the day's, and the top figures are the TLS check's. */
  lemma ReadingMeans(start: string, events: seq<Event>, check: string, day: string)
    requires check in CHECK_NAMES
    ensures var f := Snapshotted(After(Fresh(start), events), day);
            var c := Of(f.checks, check);
            && c.total == Scans(events, check, None)
            && c.total == c.strong + c.weak + c.insecure + c.ungraded
            && c.strong == Scans(events, check, Some(Strong)) && c.weak == Scans(events, check, Some(Weak))
            && c.insecure == Scans(events, check, Some(Insecure)) && c.ungraded == Scans(events, check, Some(Ungraded))
            && c.today == ScansToday(Fresh(start), events, check, day) <= c.total
            && (check == "tls" ==>
                  (f.total, f.strong, f.weak, f.insecure, f.ungraded, f.today) ==
                  (c.total, c.strong, c.weak, c.insecure, c.ungraded, c.today))
            && (check in f.checks ==>
                  c.policy == if check == "tls" then "porch-tls-v7"
                              else if check == "web" then "porch-web-v3" else "porch-mail-v1")
            && f.todayDate == day && f.since == start
  {
    var f := After(Fresh(start), events);
    RunTells(Fresh(start), events, check);
    RunToday(Fresh(start), events, check);
    FreshSound(start);
    RunSound(Fresh(start), events);
    if f.todayDate != day {
      DayOver(Fresh(start), events, check, day);
    }
    SinceKept(Fresh(start), events);
  }

  lemma {:induction false} SinceKept(f: Figures, events: seq<Event>)
    ensures After(f, events).since == f.since
  {
    if events != [] {
      SinceKept(f, events[..|events| - 1]);
    }
  }

  // ---- Saving and reading back ----

  function Yesterdays(f: Figures, day: string): Figures {
    f.(checks := NewDay(f.checks), today := 0, todayDate := day)
  }

  /** What was saved is what is read back: the same figures on the same day, and on another
      day the same but for the daily ones, which start again. */
  lemma RestoreRoundTrip(f: Figures, g: Figures, saved: string, day: string)
    requires Sound(f) && f.since != ""
    ensures var s := Snapshotted(f, saved);
            Snapshotted(Restored(g, s, day), day) == if day == saved then s else Yesterdays(s, day)
  {
    hide CHECK_NAMES, FileChecks, PolicyOf, Stamped, NewDay, KnownCodes;
    var s := Snapshotted(f, saved);
    FileChecksBack(f, s, saved);
    RefusedBack(f);
    StampedBack(s.checks);
  }

  lemma RefusedBack(f: Figures)
    requires Sound(f)
    ensures KnownCodes(f.refused) == f.refused
  {}

  /** Blocks that carried their stamp carry it again, on the same day or on another. */
  lemma StampedBack(checks: map<string, CheckCounts>)
    requires forall name :: name in checks ==> checks[name].policy == PolicyOf(name, "")
    ensures var bare := map name | name in checks :: checks[name].(policy := "");
            Stamped(bare) == checks && Stamped(NewDay(bare)) == NewDay(checks)
                && Stamped(NewDay(NewDay(bare))) == NewDay(checks)
    ensures Of(NewDay(checks), "tls") == Of(checks, "tls").(today := 0)
  {
    hide PolicyOf;
  }

  lemma FileChecksBack(f: Figures, s: Figures, saved: string)
    requires Sound(f) && s == Snapshotted(f, saved)
    ensures FileChecks(s) == map name | name in s.checks :: s.checks[name].(policy := "")
    ensures forall name :: name in s.checks ==> s.checks[name].policy == PolicyOf(name, "")
  {
    assert CHECK_NAMES == ["tls", "web", "mail"];
    if "tls" !in s.checks {
      assert s.total == 0;
    }
  }

  /** A file of before there were blocks: its figures are the TLS check's. */
  lemma OldFile(f: Figures, s: Figures, day: string)
    requires s.checks == map[] && s.total > 0 && s.todayDate == day
    ensures var t := Snapshotted(Restored(f, s, day), day);
            && t.checks.Keys == {"tls"}
            && (t.total, t.strong, t.weak, t.insecure, t.ungraded, t.today) ==
               (s.total, s.strong, s.weak, s.insecure, s.ungraded, s.today)
  {
    assert KnownChecks(s.checks) == map[];
  }

  // ---- Publishing ----

  const PUBLISH_INTERVAL := 60_000_000_000

  predicate Due(at: Option<int>, now: int) {
    at.None? || now - at.value >= PUBLISH_INTERVAL
  }

  /** When, over a run of polls, the published figures were taken anew. */
  function Refreshes(at: Option<int>, polls: seq<int>): seq<int>
    decreases polls
  {
    if polls == [] then []
    else if Due(at, polls[0]) then [polls[0]] + Refreshes(Some(polls[0]), polls[1..])
    else Refreshes(at, polls[1..])
  }

  /** However often the figures are asked for, they change no more than once a minute. */
  lemma {:induction false} RefreshesApart(at: Option<int>, polls: seq<int>)
    ensures var times := Refreshes(at, polls);
            && (at.Some? && times != [] ==> times[0] - at.value >= 60_000_000_000)
            && forall i :: 0 <= i < |times| - 1 ==> times[i + 1] - times[i] >= 60_000_000_000
    decreases polls
  {
    if polls != [] {
      if Due(at, polls[0]) {
        RefreshesApart(Some(polls[0]), polls[1..]);
      } else {
        RefreshesApart(at, polls[1..]);
      }
    }
  }

  /** And whoever asks is given figures less than a minute old. */
  lemma {:induction false} NeverStale(at: Option<int>, polls: seq<int>)
    requires polls != [] && (at.Some? ==> at.value <= polls[0])
    requires forall i :: 0 <= i < |polls| - 1 ==> polls[i] <= polls[i + 1]
    ensures var times, last := Refreshes(at, polls), polls[|polls| - 1];
            && polls[0] <= last
            && (times == [] ==> at.Some? && last - at.value < 60_000_000_000)
            && (times != [] ==> 0 <= last - times[|times| - 1] < 60_000_000_000)
    decreases polls
  {
    var next := if Due(at, polls[0]) then Some(polls[0]) else at;
    if |polls| > 1 {
      NeverStale(next, polls[1..]);
    } else {
      assert Refreshes(next, polls[1..]) == [];
    }
  }
}
