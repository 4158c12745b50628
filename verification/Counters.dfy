/** The counters in memory: figures updated in place, read out as copies
    (internal/httpapi/counters.go). */
module Counters {
  import opened Options
  import opened Tallies

  /** A map held by reference. */
  class Table<V> {
    var entries: map<string, V>

    constructor (entries: map<string, V>)
      ensures this.entries == entries
    {
      this.entries := entries;
    }
  }

  function Entries<V>(t: Table?<V>): map<string, V>
    reads t
  {
    if t == null then map[] else t.entries
  }

  method Clone<V>(t: Table?<V>) returns (copy: Table?<V>)
    ensures copy == null <==> t == null
    ensures copy != null ==> fresh(copy) && copy.entries == t.entries
  {
    if t == null {
      return null;
    }
    copy := new Table(t.entries);
  }

  /** A struct: copying it shares its two maps. */
  datatype Snapshot = Snapshot(
    total: nat, strong: nat, weak: nat, insecure: nat, ungraded: nat,
    refused: Table?<nat>, checks: Table?<CheckCounts>,
    today: nat, todayDate: string, since: string)

  function Value(s: Snapshot): Figures
    reads s.refused, s.checks
  {
    Figures(s.total, s.strong, s.weak, s.insecure, s.ungraded,
                    Entries(s.refused), Entries(s.checks), s.today, s.todayDate, s.since)
  }

  /** Neither of two snapshots can be reached through the other. */
  predicate Apart(s: Snapshot, t: Snapshot) {
    (s.refused == null || s.refused != t.refused) && (s.checks == null || s.checks != t.checks)
  }

  /** The maps of a snapshot were all made since. */
  twostate predicate New(new s: Snapshot) {
    (s.refused != null ==> fresh(s.refused)) && (s.checks != null ==> fresh(s.checks))
  }

  twostate predicate KeptOrNew(before: Snapshot, new after: Snapshot) {
    && (after.refused == before.refused || (after.refused != null && fresh(after.refused)))
    && (after.checks == before.checks || (after.checks != null && fresh(after.checks)))
  }

  /** Clears every check's figure for the day. */
  method ClearToday(t: Table<CheckCounts>)
    modifies t
    ensures t.entries == NewDay(old(t.entries))
  {
    var names := t.entries.Keys;
    while names != {}
      invariant names <= t.entries.Keys == old(t.entries.Keys)
      invariant forall name :: name in t.entries ==>
                  t.entries[name] == if name in names then old(t.entries)[name] else old(t.entries)[name].(today := 0)
      decreases |names|
    {
      var name :| name in names;
      var counts := t.entries[name];
      counts := counts.(today := 0);
      t.entries := t.entries[name := counts];
      names := names - {name};
    }
  }

  method Stamp(t: Table<CheckCounts>)
    modifies t
    ensures t.entries == Stamped(old(t.entries))
  {
    hide PolicyOf;
    var names := t.entries.Keys;
    while names != {}
      invariant names <= t.entries.Keys == old(t.entries.Keys)
      invariant forall name :: name in t.entries ==>
                  var was := old(t.entries)[name];
                  t.entries[name] == if name in names then was else was.(policy := PolicyOf(name, was.policy))
      decreases |names|
    {
      var name :| name in names;
      var counts := t.entries[name];
      counts := counts.(policy := PolicyOf(name, counts.policy));
      t.entries := t.entries[name := counts];
      names := names - {name};
    }
  }

  class Counters {
    var data: Snapshot
    var published: Snapshot
    var publishedAt: Option<int>

    ghost predicate Valid()
      reads this
    {
      Apart(published, data)
    }

    constructor (day: string)
      ensures Valid() && New(data) && Value(data) == Fresh(day)
      ensures publishedAt.None?
    {
      var refused := new Table<nat>(map[]);
      data := Snapshot(0, 0, 0, 0, 0, refused, null, 0, day, day);
      published := Snapshot(0, 0, 0, 0, 0, null, null, 0, "", "");
      publishedAt := None;
    }

    method Record(check: string, verdict: Verdict, day: string)
      requires Valid()
      modifies this`data, data.checks
      ensures Valid() && KeptOrNew(old(data), data)
      ensures Value(data) == Recorded(old(Value(data)), check, verdict, day)
    {
      hide CHECK_NAMES;
      if check !in CHECK_NAMES {
        return;
      }
      StartDay(day);
      if data.checks == null {
        var table := new Table<CheckCounts>(map[]);
        data := data.(checks := table);
      }
      var counts := if check in data.checks.entries then data.checks.entries[check] else NO_COUNTS;
      ghost var before := counts;
      counts := counts.(total := counts.total + 1);
      counts := counts.(today := counts.today + 1);
      match verdict {
        case Strong => counts := counts.(strong := counts.strong + 1);
        case Weak => counts := counts.(weak := counts.weak + 1);
        case Insecure => counts := counts.(insecure := counts.insecure + 1);
        case Ungraded => counts := counts.(ungraded := counts.ungraded + 1);
      }
      assert counts == Counted(before, verdict);
      data.checks.entries := data.checks.entries[check := counts];
    }

    /** What belongs to a day that has ended is cleared. */
    method StartDay(day: string)
      modifies this`data, data.checks
      ensures Entries(data.checks) == if old(data).todayDate == day then old(Entries(data.checks))
          else NewDay(old(Entries(data.checks)))
      ensures data == old(data).(todayDate := day, today := if old(data).todayDate == day then old(data).today else 0)
    {
      if data.todayDate != day {
        data := data.(todayDate := day);
        data := data.(today := 0);
        if data.checks != null {
          ClearToday(data.checks);
        }
      }
    }

    method Refuse(code: string)
      requires Valid()
      modifies this`data, data.refused
      ensures Valid() && KeptOrNew(old(data), data)
      ensures Value(data) == RefusedOnce(old(Value(data)), code)
    {
      hide REFUSAL_CODES;
      if code !in REFUSAL_CODES {
        return;
      }
      if data.refused == null {
        var table := new Table<nat>(map[]);
        data := data.(refused := table);
      }
      var count := if code in data.refused.entries then data.refused.entries[code] else 0;
      data.refused.entries := data.refused.entries[code := count + 1];
    }

    /** The live figures, in maps nothing else holds. */
    method Read(day: string) returns (out: Snapshot)
      ensures New(out) && Value(out) == Snapshotted(Value(data), day)
    {
      var refused := Clone(data.refused);
      var checks := Clone(data.checks);
      out := data;
      out := out.(refused := refused);
      out := out.(checks := checks);
      if out.todayDate != day {
        out := out.(todayDate := day);
        if out.checks != null {
          ClearToday(out.checks);
        }
      }
      assert Entries(out.checks) == if data.todayDate == day then Entries(data.checks)
          else NewDay(Entries(data.checks));
      if out.checks != null {
        Stamp(out.checks);
      }
      assert Entries(out.checks) ==
          Stamped(if data.todayDate == day then Entries(data.checks) else NewDay(Entries(data.checks)));
      out := Project(out);
    }

    /** The figures at the top of a snapshot. */
    method Project(s: Snapshot) returns (out: Snapshot)
      ensures out.refused == s.refused && out.checks == s.checks && Value(out) == Projected(Value(s))
    {
      var tls := if s.checks != null && "tls" in s.checks.entries then s.checks.entries["tls"] else NO_COUNTS;
      out := s.(total := tls.total);
      out := out.(strong := tls.strong);
      out := out.(weak := tls.weak);
      out := out.(insecure := tls.insecure);
      out := out.(ungraded := tls.ungraded);
      out := out.(today := tls.today);
    }

    /** Figures that stand still for an interval at a time. */
    method ReadPublic(now: int, day: string) returns (out: Snapshot)
      requires Valid()
      modifies this`published, this`publishedAt
      ensures Valid() && out == published
      ensures if Due(old(publishedAt), now)
              then publishedAt == Some(now) && New(out) && Value(out) == Snapshotted(Value(data), day)
              else publishedAt == old(publishedAt) && out == old(published)
    {
      if publishedAt.None? || now - publishedAt.value >= PUBLISH_INTERVAL {
        published := Read(day);
        publishedAt := Some(now);
      }
      return published;
    }

    method Restore(s: Snapshot, day: string)
      requires Valid()
      modifies this`data
      ensures Valid() && KeptOrNew(old(data), data)
      ensures Value(data) == Restored(old(Value(data)), Value(s), day)
    {
      hide CHECK_NAMES, REFUSAL_CODES;
      var checks := TakeChecks(s.checks);
      if "tls" !in checks.entries && s.total > 0 {
        checks.entries :=
            checks.entries["tls" := CheckCounts("", s.total, s.strong, s.weak, s.insecure, s.ungraded, s.today)];
      }
      var refused := TakeCodes(s.refused);
      data := data.(checks := checks);
      data := data.(refused := refused);
      if s.since != "" {
        data := data.(since := s.since);
      }
      if s.todayDate == day {
        data := data.(todayDate := s.todayDate);
        return;
      }
      ClearToday(checks);
    }

    method TakeChecks(from: Table?<CheckCounts>) returns (t: Table<CheckCounts>)
      ensures fresh(t) && t.entries == KnownChecks(Entries(from))
    {
      hide CHECK_NAMES;
      t := new Table(map[]);
      if from == null {
        return;
      }
      var names := from.entries.Keys;
      while names != {}
        invariant fresh(t) && t != from && names <= from.entries.Keys
        invariant t.entries == map name | name in from.entries && name in CHECK_NAMES && name !in names ::
            from.entries[name].(policy := "")
        decreases |names|
      {
        var name :| name in names;
        if name in CHECK_NAMES {
          t.entries := t.entries[name := from.entries[name].(policy := "")];
        }
        names := names - {name};
      }
    }

    method TakeCodes(from: Table?<nat>) returns (t: Table<nat>)
      ensures fresh(t) && t.entries == KnownCodes(Entries(from))
    {
      hide REFUSAL_CODES;
      t := new Table(map[]);
      if from == null {
        return;
      }
      var codes := from.entries.Keys;
      while codes != {}
        invariant fresh(t) && t != from && codes <= from.entries.Keys
        invariant t.entries == map code | code in from.entries && code in REFUSAL_CODES && code !in codes ::
            from.entries[code]
        decreases |codes|
      {
        var code :| code in codes;
        if code in REFUSAL_CODES {
          t.entries := t.entries[code := from.entries[code]];
        }
        codes := codes - {code};
      }
    }
  }

  /** Whatever is counted after a snapshot was given out, the snapshot stays as it was. */
  method CountAfter(c: Counters, given: Snapshot, events: seq<Event>)
    requires c.Valid() && Apart(given, c.data)
    modifies c, c.data.checks, c.data.refused
    ensures c.Valid() && Apart(given, c.data)
    ensures Value(given) == old(Value(given))
    ensures c.published == old(c.published) && Value(c.published) == old(Value(c.published))
    ensures Value(c.data) == After(old(Value(c.data)), events)
  {
    hide CHECK_NAMES, REFUSAL_CODES, Recorded, RefusedOnce;
    assert events[..0] == [];
    for i := 0 to |events|
      invariant c.Valid() && Apart(given, c.data) && KeptOrNew(old(c.data), c.data)
      invariant Value(given) == old(Value(given))
      invariant c.published == old(c.published) && Value(c.published) == old(Value(c.published))
      invariant Value(c.data) == After(old(Value(c.data)), events[..i])
    {
      assert events[..i + 1][..i] == events[..i];
      match events[i] {
        case Scan(check, verdict, day) => c.Record(check, verdict, day);
        case Refusal(code) => c.Refuse(code);
      }
    }
    assert events[..|events|] == events;
  }
}
