/** Which references of a page are kept (internal/markup/markup.go). */
module References {
  import opened Bytes
  import opened Lists
  import opened Options
  import opened Addresses

  const MAX_REFERENCES := 32

  datatype Kind = Script | Style | Frame | Object | Image | Media | Form

  datatype Reference = Reference(kind: Kind, host: bytes, plaintext: bool, thirdParty: bool, integrity: bool,
      blocking: bool)

  /** What some rule reads. */
  predicate Reportable(r: Reference) {
    r.plaintext || r.thirdParty
  }

  /** Those some rule reads. */
  function Kept(refs: seq<Reference>): (k: seq<Reference>)
    ensures |k| <= |refs|
  {
    if refs == [] then []
    else Kept(refs[..|refs| - 1]) + if Reportable(refs[|refs| - 1]) then [refs[|refs| - 1]] else []
  }

  function FirstFew(refs: seq<Reference>): (r: seq<Reference>)
    ensures r <= refs && |r| <= MAX_REFERENCES
  {
    if |refs| <= MAX_REFERENCES then refs else refs[..MAX_REFERENCES]
  }

  class Facts {
    var seen: set<Reference>
    var references: seq<Reference>
    var referencesTotal: nat
    var moreThanListed: bool

    /** What these facts are after `refs` were added. */
    ghost predicate Tell(refs: seq<Reference>)
      reads this
    {
      var kept := Kept(refs);
      && referencesTotal == |kept|
      && references == FirstFew(Distinct(kept))
      && moreThanListed == (|Distinct(kept)| > MAX_REFERENCES)
      && forall r :: r in seen <==> r in references
    }

    constructor ()
      ensures Tell([])
    {
      seen, references, referencesTotal, moreThanListed := {}, [], 0, false;
    }

    method Add(r: Reference, ghost refs: seq<Reference>)
      requires Tell(refs)
      modifies this
      ensures Tell(refs + [r])
    {
      hide Kept, Distinct;
      ghost var kept := Kept(refs);
      KeptMore(refs, r);
      DistinctMore(kept, r);
      if !r.plaintext && !r.thirdParty {
        return;
      }
      referencesTotal := referencesTotal + 1;
      if r in seen {
        return;
      }
      if |references| >= MAX_REFERENCES {
        moreThanListed := true;
        return;
      }
      seen := seen + {r};
      references := references + [r];
    }
  }

  lemma KeptMore(refs: seq<Reference>, r: Reference)
    ensures Kept(refs + [r]) == if Reportable(r) then Kept(refs) + [r] else Kept(refs)
  {
    assert (refs + [r])[..|refs|] == refs;
    assert Kept(refs) + [] == Kept(refs);
  }

  /** Every reportable reference is counted as often as it was made, and no other. */
  lemma {:induction false} KeptMeans(refs: seq<Reference>)
    ensures forall r :: r in Kept(refs) <==> r in refs && Reportable(r)
    ensures forall r :: multiset(Kept(refs))[r] == if Reportable(r) then multiset(refs)[r] else 0
  {
    if refs != [] {
      var before := refs[..|refs| - 1];
      KeptMeans(before);
      assert refs == before + [refs[|refs| - 1]];
    }
  }

  /** The list holds no reference twice, holds only reportable ones that were made, and holds all of
      them unless it says that there are more, when it is full. The total counts repetitions. */
  lemma ListMeans(facts: Facts, refs: seq<Reference>)
    requires facts.Tell(refs)
    ensures |facts.references| <= 32 && (facts.moreThanListed ==> |facts.references| == 32)
    ensures NoneTwice(facts.references)
    ensures forall r :: r in facts.references ==> r in refs && Reportable(r)
    ensures !facts.moreThanListed <==> forall r :: r in refs && Reportable(r) ==> r in facts.references
    ensures exists kept: seq<Reference> ::
              && facts.referencesTotal == |kept|
              && forall r :: multiset(kept)[r] == if r.plaintext || r.thirdParty then multiset(refs)[r] else 0
  {
    var kept := Kept(refs);
    var d := Distinct(kept);
    KeptMeans(refs);
    DistinctMeans(kept);
    if facts.moreThanListed {
      assert d[MAX_REFERENCES] in d && d[MAX_REFERENCES] !in facts.references;
    } else {
      assert facts.references == d;
    }
  }

  /** What a page refers to later takes no place from what it referred to before. */
  lemma EarlierStay(facts: Facts, later: Facts, refs: seq<Reference>, more: seq<Reference>)
    requires facts.Tell(refs) && later.Tell(refs + more)
    ensures facts.references <= later.references && facts.referencesTotal <= later.referencesTotal
    ensures facts.moreThanListed ==> later.moreThanListed && later.references == facts.references
  {
    hide Distinct;
    KeptOn(refs, more);
    DistinctFirst(Kept(refs), Kept(more));
  }

  lemma {:induction false} KeptOn(refs: seq<Reference>, more: seq<Reference>)
    ensures Kept(refs + more) == Kept(refs) + Kept(more)
  {
    hide Kept, Reportable;
    if more == [] {
      KeptNone(refs);
      assert refs + more == refs;
    } else {
      var before, last := more[..|more| - 1], more[|more| - 1];
      KeptOn(refs, before);
      assert refs + more == refs + before + [last] && more == before + [last];
      KeptMore(refs + before, last);
      KeptMore(before, last);
      assert Kept(refs) + Kept(before) + [last] == Kept(refs) + (Kept(before) + [last]);
    }
  }

  lemma KeptNone(refs: seq<Reference>)
    ensures Kept([]) == [] && Kept(refs) + Kept([]) == Kept(refs)
  {}

  // ---- What a page refers to ----

  /** An element that says where relative addresses lead, or an address that is used. */
  datatype Mention = Base(href: Option<bytes>) | Use(value: bytes, kind: Kind, blocking: bool, integrity: bool)

  /** The page's own origin: over TLS, on the port that goes with it. */
  function Own(host: bytes): Origin {
    Origin(false, host, false)
  }

  /** Where relative addresses lead after an element that says so. */
  function Rebased(base: Origin, href: bytes, fold: bytes -> bytes): Origin {
    var to := Resolve(base, href, fold);
    if to.Some? then to.value else base
  }

  /** The reference an address makes, if a fetch goes anywhere. */
  function ReferenceTo(host: bytes, base: Origin, fold: bytes -> bytes, u: Mention): Option<Reference>
    requires u.Use?
  {
    var to := Resolve(base, u.value, fold);
    if to.None? then None
    else
      var o := to.value;
      Some(Reference(u.kind, o.host, o.plaintext,
                     host != [] && o.host != [] && (o.host != host || o.otherPort || o.plaintext),
                     u.integrity, u.blocking && o.plaintext))
  }

  /** The references of a page, in order. The first base element with an address counts,
      for what comes after it. */
  function MadeBy(host: bytes, fold: bytes -> bytes, base: Origin, baseSet: bool, page: seq<Mention>): seq<Reference>
    decreases page
  {
    if page == [] then []
    else
      match page[0]
      case Base(href) =>
        if href.None? || baseSet then MadeBy(host, fold, base, baseSet, page[1..])
        else MadeBy(host, fold, Rebased(base, href.value, fold), true, page[1..])
      case Use(_, _, _, _) =>
        var r := ReferenceTo(host, base, fold, page[0]);
        (if r.Some? then [r.value] else []) + MadeBy(host, fold, base, baseSet, page[1..])
  }

  class Page {
    const host: bytes
    const fold: bytes -> bytes
    var base: Origin
    var baseSet: bool

    constructor (host: bytes, fold: bytes -> bytes)
      ensures this.host == fold(host) && this.fold == fold
      ensures base == Own(this.host) && !baseSet
    {
      this.host := fold(host);
      this.fold := fold;
      base := Origin(false, fold(host), false);
      baseSet := false;
    }

    /** Only the first base element with an address counts, wherever it leads. */
    method SetBase(href: Option<bytes>)
      modifies this
      ensures baseSet == (old(baseSet) || href.Some?)
      ensures base == if old(baseSet) || href.None? then old(base) else Rebased(old(base), href.value, fold)
    {
      if href.None? || baseSet {
        return;
      }
      baseSet := true;
      var to := Resolve(base, href.value, fold);
      if to.Some? {
        base := to.value;
      }
    }

    /** What a page's elements leave in the facts about it. */
    method Read(facts: Facts, page: seq<Mention>)
      requires facts.Tell([])
      modifies this, facts
      ensures facts.Tell(MadeBy(host, fold, old(base), old(baseSet), page))
    {
      hide ReferenceTo, Rebased, MadeBy, Facts.Tell;
      ghost var all := MadeBy(host, fold, base, baseSet, page);
      ghost var made: seq<Reference> := [];
      assert page[0..] == page && made + all == all;
      for i := 0 to |page|
        invariant facts.Tell(made)
        invariant made + MadeBy(host, fold, base, baseSet, page[i..]) == all
      {
        MadeNext(host, fold, base, baseSet, page, i, made);
        match page[i] {
          case Base(href) => SetBase(href);
          case Use(_, _, _, _) =>
            var r := ReferenceTo(host, base, fold, page[i]);
            if r.Some? {
              facts.Add(r.value, made);
              made := made + [r.value];
            }
        }
      }
      MadeNone(host, fold, base, baseSet, page[|page|..], made);
    }
  }

  lemma MadeNext(host: bytes, fold: bytes -> bytes, base: Origin, baseSet: bool, page: seq<Mention>, i: nat,
                 made: seq<Reference>)
    requires i < |page|
    ensures var rest := page[i + 1..];
            made + MadeBy(host, fold, base, baseSet, page[i..]) ==
            match page[i]
            case Base(href) =>
              if href.None? || baseSet then made + MadeBy(host, fold, base, baseSet, rest)
              else made + MadeBy(host, fold, Rebased(base, href.value, fold), true, rest)
            case Use(_, _, _, _) =>
              var r := ReferenceTo(host, base, fold, page[i]);
              (if r.Some? then made + [r.value] else made) + MadeBy(host, fold, base, baseSet, rest)
  {
    hide ReferenceTo, Rebased;
    assert page[i..][0] == page[i] && page[i..][1..] == page[i + 1..];
    if page[i].Use? {
      var r, more := ReferenceTo(host, base, fold, page[i]), MadeBy(host, fold, base, baseSet, page[i + 1..]);
      if r.Some? {
        assert made + ([r.value] + more) == made + [r.value] + more;
      } else {
        assert [] + more == more;
      }
    }
  }

  lemma MadeNone(host: bytes, fold: bytes -> bytes, base: Origin, baseSet: bool, page: seq<Mention>,
                 made: seq<Reference>)
    requires page == []
    ensures made + MadeBy(host, fold, base, baseSet, page) == made
  {}

  /** An address with no scheme of its own and no authority. */
  predicate Relative(value: bytes) {
    var v := Cleaned(value);
    SchemeOf(v).NoScheme? && !(SlashAt(v, 0) && SlashAt(v, 1))
  }

  ghost predicate LoadsItsOwn(page: seq<Mention>) {
    forall m :: m in page ==> if m.Base? then m.href.None? || Relative(m.href.value) else Relative(m.value)
  }

  lemma RelativeLeadsToBase(base: Origin, value: bytes, fold: bytes -> bytes)
    requires Relative(value)
    ensures Resolve(base, value, fold) == if Cleaned(value) == [] then None else Some(base)
  {}

  lemma {:induction false} OwnNotReportable(host: bytes, fold: bytes -> bytes, baseSet: bool, page: seq<Mention>)
    requires LoadsItsOwn(page)
    ensures forall r :: r in MadeBy(host, fold, Own(host), baseSet, page) ==> !Reportable(r)
    decreases page
  {
    if page != [] {
      assert page[0] in page;
      OwnNotReportable(host, fold, baseSet, page[1..]);
      if page[0].Use? {
        RelativeLeadsToBase(Own(host), page[0].value, fold);
      } else if page[0].href.Some? && !baseSet {
        RelativeLeadsToBase(Own(host), page[0].href.value, fold);
        OwnNotReportable(host, fold, true, page[1..]);
      }
    }
  }

  /** A page whose every address is relative leaves nothing in the facts, however many it
      uses and whatever base elements it has. */
  lemma OwnThingsUnreported(facts: Facts, host: bytes, fold: bytes -> bytes, page: seq<Mention>)
    requires LoadsItsOwn(page) && facts.Tell(MadeBy(host, fold, Own(host), false, page))
    ensures facts.references == [] && facts.referencesTotal == 0 && !facts.moreThanListed
  {
    var made := MadeBy(host, fold, Own(host), false, page);
    OwnNotReportable(host, fold, false, page);
    KeptMeans(made);
    assert Kept(made) == [] by {
      if Kept(made) != [] {
        assert Kept(made)[0] in Kept(made);
      }
    }
  }

  // ---- Which base element counts ----

  /** Every address a page uses, against one base. */
  function AllTo(host: bytes, fold: bytes -> bytes, base: Origin, page: seq<Mention>): seq<Reference> {
    if page == [] then []
    else if page[0].Base? then AllTo(host, fold, base, page[1..])
    else
      var r := ReferenceTo(host, base, fold, page[0]);
      (if r.Some? then [r.value] else []) + AllTo(host, fold, base, page[1..])
  }

  lemma {:induction false} SetBaseStays(host: bytes, fold: bytes -> bytes, base: Origin, page: seq<Mention>)
    ensures MadeBy(host, fold, base, true, page) == AllTo(host, fold, base, page)
  {
    hide ReferenceTo, Rebased;
    if page != [] {
      SetBaseStays(host, fold, base, page[1..]);
    }
  }

  /** Until the first base element with an address everything leads against the page's own origin, and
      after it against where it leads, whatever base elements follow. */
  lemma {:induction false} FirstBaseDecides(host: bytes, fold: bytes -> bytes, base: Origin, before: seq<Mention>,
                                            href: bytes, after: seq<Mention>)
    requires forall m :: m in before && m.Base? ==> m.href.None?
    ensures MadeBy(host, fold, base, false, before) == AllTo(host, fold, base, before)
    ensures MadeBy(host, fold, base, false, before + ([Base(Some(href))] + after)) ==
            AllTo(host, fold, base, before) + AllTo(host, fold, Rebased(base, href, fold), after)
  {
    hide ReferenceTo, Rebased;
    var page, to := before + ([Base(Some(href))] + after), AllTo(host, fold, Rebased(base, href, fold), after);
    if before == [] {
      assert page == [Base(Some(href))] + after && page[1..] == after;
      SetBaseStays(host, fold, Rebased(base, href, fold), after);
      assert [] + to == to;
    } else {
      assert page[0] == before[0] && page[0] in before && page[1..] == before[1..] + ([Base(Some(href))] + after);
      FirstBaseDecides(host, fold, base, before[1..], href, after);
      if before[0].Use? {
        var r, more := ReferenceTo(host, base, fold, before[0]), AllTo(host, fold, base, before[1..]);
        var first := if r.Some? then [r.value] else [];
        assert first + (more + to) == first + more + to;
      }
    }
  }
}
