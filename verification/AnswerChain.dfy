/** Which records of a reply answer the question (internal/dnsclient/parse.go). */
module AnswerChain {
  import opened Bytes
  import opened Options
  import opened WireName

  const TYPE_CNAME := 5
  const MAX_CHAIN := 8

  datatype Record = Record(owner: bytes, rrType: int, rdata: bytes, rdataAt: nat)

  // ---- Reading the section ----

  /** One record from `at`, and where the next begins. */
  function RecordAt(raw: bytes, at: nat): Option<(Record, nat)> {
    match Name(raw, at)
    case None => None
    case Some((owner, head)) =>
      if head + 10 > |raw| then None
      else
        var rdataAt := head + 10;
        var rdLength := U16(raw, head + 8);
        if rdataAt + rdLength > |raw| then None
        else Some((Record(owner, U16(raw, head), raw[rdataAt..rdataAt + rdLength], rdataAt), rdataAt + rdLength))
  }

  function Section(raw: bytes, at: nat, count: nat): Option<seq<Record>>
    decreases count
  {
    if count == 0 then Some([])
    else
      match RecordAt(raw, at)
      case None => None
      case Some((r, next)) => Prepend([r], Section(raw, next, count - 1))
  }

  // ---- Following aliases ----

  /** Where the first CNAME at a name points, if there is one and it can be read. */
  function Target(raw: bytes, records: seq<Record>, at: bytes): Option<bytes> {
    if records == [] then None
    else if records[0].rrType == TYPE_CNAME && records[0].owner == at then
      match Name(raw, records[0].rdataAt)
      case None => None
      case Some((target, _)) => Some(Folded(target))
    else Target(raw, records[1..], at)
  }

  /** The name `k` aliases away from the question. */
  function Hop(raw: bytes, records: seq<Record>, want: bytes, k: nat): Option<bytes> {
    if k == 0 then Some(want)
    else
      match Hop(raw, records, want, k - 1)
      case None => None
      case Some(at) => Target(raw, records, at)
  }

  ghost predicate Reached(raw: bytes, records: seq<Record>, want: bytes, name: bytes, hops: nat) {
    exists k :: 0 <= k <= hops && Hop(raw, records, want, k) == Some(name)
  }

  /** Once a chain comes back to a name it visits nothing new. */
  lemma {:induction false} Cycle(raw: bytes, records: seq<Record>, want: bytes, i: nat, k: nat, name: bytes)
    requires Hop(raw, records, want, i + 1).None?
        || Reached(raw, records, want, Hop(raw, records, want, i + 1).value, i)
    requires Hop(raw, records, want, k) == Some(name)
    ensures Reached(raw, records, want, name, i)
  {
    if k > i {
      var before := Hop(raw, records, want, k - 1).value;
      Cycle(raw, records, want, i, k - 1, before);
      var j :| 0 <= j <= i && Hop(raw, records, want, j) == Some(before);
      assert Hop(raw, records, want, j + 1) == Some(name);
      assert j == i || j + 1 <= i;
    }
  }

  method ChainFrom(raw: bytes, want: bytes, records: seq<Record>) returns (out: set<bytes>)
    ensures forall name :: name in out <==> Reached(raw, records, want, name, MAX_CHAIN)
  {
    out := {want};
    var at := want;
    assert Hop(raw, records, want, 0) == Some(want);
    for i := 0 to MAX_CHAIN
      invariant Hop(raw, records, want, i) == Some(at)
      invariant forall name :: name in out <==> Reached(raw, records, want, name, i)
    {
      var next: Option<bytes> := None;
      var broken := false;
      for j := 0 to |records|
        invariant next.None? && !broken
        invariant Target(raw, records, at) == Target(raw, records[j..], at)
      {
        var r := records[j];
        assert records[j..][1..] == records[j + 1..];
        if r.rrType != TYPE_CNAME || r.owner != at {
          continue;
        }
        var target := ReadName(raw, r.rdataAt);
        if target.None? {
          broken := true;
        } else {
          next := Some(Folded(target.value.0));
        }
        break;
      }
      assert next == Target(raw, records, at) == Hop(raw, records, want, i + 1);
      if broken || next.None? || next.value in out {
        forall name | Reached(raw, records, want, name, MAX_CHAIN)
          ensures name in out
        {
          var k :| 0 <= k <= MAX_CHAIN && Hop(raw, records, want, k) == Some(name);
          Cycle(raw, records, want, i, k, name);
        }
        ReachedMore(raw, records, want, i, MAX_CHAIN);
        return;
      }
      ReachedNext(raw, records, want, i);
      out := out + {next.value};
      at := next.value;
    }
  }

  lemma ReachedMore(raw: bytes, records: seq<Record>, want: bytes, i: nat, j: nat)
    requires i <= j
    ensures forall name :: Reached(raw, records, want, name, i) ==> Reached(raw, records, want, name, j)
  {}

  lemma ReachedNext(raw: bytes, records: seq<Record>, want: bytes, i: nat)
    ensures forall name :: Reached(raw, records, want, name, i + 1) <==>
                             Reached(raw, records, want, name, i) || Hop(raw, records, want, i + 1) == Some(name)
  {}

  // ---- Keeping what answers ----

  ghost predicate Answering(raw: bytes, records: seq<Record>, qtype: int, want: bytes, r: Record) {
    r.rrType == qtype && Reached(raw, records, want, r.owner, MAX_CHAIN)
  }

  /** The records that answer, in the order they came. */
  ghost function Kept(raw: bytes, all: seq<Record>, qtype: int, want: bytes, some: seq<Record>): seq<Record> {
    if some == [] then []
    else (if Answering(raw, all, qtype, want, some[0]) then [some[0]] else []) + Kept(raw, all, qtype, want, some[1..])
  }

  function ParseAll<T>(parse: Record -> Option<T>, records: seq<Record>): Option<seq<T>> {
    if records == [] then Some([])
    else
      match parse(records[0])
      case None => None
      case Some(x) => Prepend([x], ParseAll(parse, records[1..]))
  }

  /** The whole answer section. `parse` reads one record of the type that was asked. */
  ghost function Answers<T>(raw: bytes, at: nat, count: nat, qtype: int, want: bytes,
                            parse: Record -> Option<T>): Option<seq<T>> {
    match Section(raw, at, count)
    case None => None
    case Some(records) => ParseAll(parse, Kept(raw, records, qtype, want, records))
  }

  method ReadSection(raw: bytes, from: nat, count: nat) returns (r: Option<seq<Record>>)
    ensures r == Section(raw, from, count)
  {
    hide Name;
    var records: seq<Record> := [];
    var offset: nat := from;
    PrependNothing(Section(raw, from, count));
    for i := 0 to count
      invariant Section(raw, from, count) == Prepend(records, Section(raw, offset, count - i))
    {
      var name := ReadName(raw, offset);
      if name.None? {
        return None;
      }
      ghost var before := offset;
      var owner := name.value.0;
      offset := name.value.1;
      if offset + 10 > |raw| {
        return None;
      }
      var rrType := U16(raw, offset);
      var rdLength := U16(raw, offset + 8);
      offset := offset + 10;
      if offset + rdLength > |raw| {
        return None;
      }
      var record := Record(owner, rrType, raw[offset..offset + rdLength], offset);
      offset := offset + rdLength;
      assert RecordAt(raw, before) == Some((record, offset));
      PrependLaws(records, record, Section(raw, offset, count - i - 1));
      records := records + [record];
    }
    PrependLaws(records, Record([], 0, [], 0), None);
    return Some(records);
  }

  method ParseAnswers<T>(raw: bytes, offset: nat, count: nat, qtype: int, want: bytes, parse: Record -> Option<T>)
    returns (out: Option<seq<T>>)
    ensures out == Answers(raw, offset, count, qtype, want, parse)
  {
    var section := ReadSection(raw, offset, count);
    if section.None? {
      return None;
    }
    var records := section.value;
    var answering := ChainFrom(raw, want, records);
    ghost var kept := Kept(raw, records, qtype, want, records);
    var found: seq<T> := [];
    assert records[0..] == records;
    PrependNothing(ParseAll(parse, kept));
    for i := 0 to |records|
      invariant ParseAll(parse, kept) == Prepend(found, ParseAll(parse, Kept(raw, records, qtype, want, records[i..])))
    {
      var r := records[i];
      ghost var rest := Kept(raw, records, qtype, want, records[i + 1..]);
      assert records[i..][1..] == records[i + 1..];
      assert Kept(raw, records, qtype, want, records[i..]) ==
          (if Answering(raw, records, qtype, want, r) then [r] else []) + rest;
      if r.rrType != qtype || r.owner !in answering {
        assert [] + rest == rest;
        continue;
      }
      assert ([r] + rest)[1..] == rest;
      var x := parse(r);
      if x.None? {
        return None;
      }
      PrependLaws(found, x.value, ParseAll(parse, rest));
      found := found + [x.value];
    }
    assert found + [] == found;
    return Some(found);
  }

  /** A record answers exactly when it is of the type asked about and its owner is reached
      from the question by at most eight of the reply's own first aliases; what answers
      keeps its order, and nothing that answers is dropped. */
  lemma {:induction false} KeptExactly(raw: bytes, all: seq<Record>, qtype: int, want: bytes, some: seq<Record>,
                                       r: Record)
    ensures r in Kept(raw, all, qtype, want, some) <==> r in some && Answering(raw, all, qtype, want, r)
    ensures |Kept(raw, all, qtype, want, some)| == |some| <==> forall i :: 0 <= i < |some| ==>
        Answering(raw, all, qtype, want, some[i])
    ensures |Kept(raw, all, qtype, want, some)| <= |some|
  {
    if some != [] {
      KeptExactly(raw, all, qtype, want, some[1..], r);
      assert some == [some[0]] + some[1..];
    }
  }

  /** The first alias of the reply at one name leads to the other. */
  ghost predicate Alias(raw: bytes, all: seq<Record>, from: bytes, to: bytes) {
    exists j :: 0 <= j < |all| && IsAlias(all[j], from)
                && Name(raw, all[j].rdataAt).Some? && Folded(Name(raw, all[j].rdataAt).value.0) == to
                && forall i :: 0 <= i < j ==> !IsAlias(all[i], from)
  }

  predicate IsAlias(r: Record, from: bytes) {
    r.rrType == 5 && r.owner == from
  }

  /** Names from the question on, each led to by the one before it. */
  ghost predicate Aliases(raw: bytes, all: seq<Record>, want: bytes, names: seq<bytes>) {
    && names != [] && names[0] == want
    && forall i :: 0 <= i < |names| - 1 ==> Alias(raw, all, names[i], names[i + 1])
  }

  lemma {:induction false} TargetAlias(raw: bytes, all: seq<Record>, from: bytes, to: bytes)
    ensures Target(raw, all, from) == Some(to) <==> Alias(raw, all, from, to)
  {
    if all != [] {
      if IsAlias(all[0], from) {
        if Alias(raw, all, from, to) {
          var j :| 0 <= j < |all| && IsAlias(all[j], from)
                   && Name(raw, all[j].rdataAt).Some? && Folded(Name(raw, all[j].rdataAt).value.0) == to
                   && forall i :: 0 <= i < j ==> !IsAlias(all[i], from);
          assert j == 0;
        }
      } else {
        TargetAlias(raw, all[1..], from, to);
        AliasLater(raw, all, from, to);
      }
    }
  }

  lemma AliasLater(raw: bytes, all: seq<Record>, from: bytes, to: bytes)
    requires all != [] && !IsAlias(all[0], from)
    ensures Alias(raw, all, from, to) <==> Alias(raw, all[1..], from, to)
  {
    var rest := all[1..];
    if Alias(raw, all, from, to) {
      var j :| 0 <= j < |all| && IsAlias(all[j], from)
               && Name(raw, all[j].rdataAt).Some? && Folded(Name(raw, all[j].rdataAt).value.0) == to
               && forall i :: 0 <= i < j ==> !IsAlias(all[i], from);
      assert rest[j - 1] == all[j] && forall i :: 0 <= i < j - 1 ==> rest[i] == all[i + 1];
    }
    if Alias(raw, rest, from, to) {
      var j :| 0 <= j < |rest| && IsAlias(rest[j], from)
               && Name(raw, rest[j].rdataAt).Some? && Folded(Name(raw, rest[j].rdataAt).value.0) == to
               && forall i :: 0 <= i < j ==> !IsAlias(rest[i], from);
      assert all[j + 1] == rest[j] && forall i :: 0 < i < j + 1 ==> all[i] == rest[i - 1];
    }
  }

  lemma {:induction false} HopAliases(raw: bytes, all: seq<Record>, want: bytes, names: seq<bytes>)
    requires Aliases(raw, all, want, names)
    ensures Hop(raw, all, want, |names| - 1) == Some(names[|names| - 1])
    decreases |names|
  {
    var n := |names| - 1;
    if n > 0 {
      HopAliases(raw, all, want, names[..n]);
      TargetAlias(raw, all, names[n - 1], names[n]);
    }
  }

  lemma {:induction false} AliasesOfHop(raw: bytes, all: seq<Record>, want: bytes, k: nat) returns (names: seq<bytes>)
    requires Hop(raw, all, want, k).Some?
    ensures Aliases(raw, all, want, names) && |names| == k + 1 && names[k] == Hop(raw, all, want, k).value
  {
    if k == 0 {
      names := [want];
    } else {
      var before := AliasesOfHop(raw, all, want, k - 1);
      TargetAlias(raw, all, before[k - 1], Hop(raw, all, want, k).value);
      names := before + [Hop(raw, all, want, k).value];
    }
  }

  /** A record answers exactly when it is of the type asked about and owned by the name asked
      about or by one that at most eight aliases of the reply lead to, each the first at its
      name. */
  lemma KeptByAliases(raw: bytes, all: seq<Record>, qtype: int, want: bytes, r: Record)
    ensures r in Kept(raw, all, qtype, want, all) <==>
              && r in all && r.rrType == qtype
              && exists names :: Aliases(raw, all, want, names) && |names| <= 9 && names[|names| - 1] == r.owner
  {
    KeptExactly(raw, all, qtype, want, all, r);
    if Reached(raw, all, want, r.owner, MAX_CHAIN) {
      var k :| 0 <= k <= MAX_CHAIN && Hop(raw, all, want, k) == Some(r.owner);
      var names := AliasesOfHop(raw, all, want, k);
    }
    forall names | Aliases(raw, all, want, names) && |names| <= 9 && names[|names| - 1] == r.owner
      ensures Reached(raw, all, want, r.owner, MAX_CHAIN)
    {
      HopAliases(raw, all, want, names);
    }
  }

  /** What answers keeps its order and its number. */
  lemma {:induction false} KeptConcat(raw: bytes, all: seq<Record>, qtype: int, want: bytes, a: seq<Record>,
                                      b: seq<Record>)
    ensures Kept(raw, all, qtype, want, a + b) == Kept(raw, all, qtype, want, a) + Kept(raw, all, qtype, want, b)
  {
    hide Kept;
    KeptFirst(raw, all, qtype, want, a);
    if a == [] {
      assert a + b == b;
      assert [] + Kept(raw, all, qtype, want, b) == Kept(raw, all, qtype, want, b);
    } else {
      KeptFirst(raw, all, qtype, want, a + b);
      assert (a + b)[1..] == a[1..] + b;
      KeptConcat(raw, all, qtype, want, a[1..], b);
      var one: seq<Record> := if Answering(raw, all, qtype, want, a[0]) then [a[0]] else [];
      var rest, more := Kept(raw, all, qtype, want, a[1..]), Kept(raw, all, qtype, want, b);
      assert one + (rest + more) == (one + rest) + more;
    }
  }

  lemma KeptFirst(raw: bytes, all: seq<Record>, qtype: int, want: bytes, some: seq<Record>)
    ensures some == [] ==> Kept(raw, all, qtype, want, some) == []
    ensures some != [] ==>
              Kept(raw, all, qtype, want, some) ==
              (if Answering(raw, all, qtype, want, some[0]) then [some[0]]
                  else []) + Kept(raw, all, qtype, want, some[1..])
  {
    hide Answering;
  }

  /** A name no alias of the reply leads to is never answered for. */
  lemma StrangerSkipped(raw: bytes, all: seq<Record>, qtype: int, want: bytes, r: Record)
    requires r.owner != want
    requires forall i :: 0 <= i < |all| && all[i].rrType == TYPE_CNAME ==>
               Name(raw, all[i].rdataAt).None? || Folded(Name(raw, all[i].rdataAt).value.0) != r.owner
    ensures r !in Kept(raw, all, qtype, want, all)
  {
    KeptExactly(raw, all, qtype, want, all, r);
    forall k | 0 <= k <= MAX_CHAIN
      ensures Hop(raw, all, want, k) != Some(r.owner)
    {
      if k > 0 && Hop(raw, all, want, k).Some? {
        TargetNamed(raw, all, Hop(raw, all, want, k - 1).value);
      }
    }
  }

  lemma {:induction false} TargetNamed(raw: bytes, records: seq<Record>, at: bytes)
    requires Target(raw, records, at).Some?
    ensures exists i :: 0 <= i < |records| && records[i].rrType == TYPE_CNAME && Name(raw, records[i].rdataAt).Some?
                        && Folded(Name(raw, records[i].rdataAt).value.0) == Target(raw, records, at).value
  {
    if records[0].rrType == TYPE_CNAME && records[0].owner == at {
      assert Folded(Name(raw, records[0].rdataAt).value.0) == Target(raw, records, at).value;
    } else {
      TargetNamed(raw, records[1..], at);
      var i :| 0 <= i < |records[1..]| && records[1..][i].rrType == TYPE_CNAME
          && Name(raw, records[1..][i].rdataAt).Some?
               && Folded(Name(raw, records[1..][i].rdataAt).value.0) == Target(raw, records[1..], at).value;
      assert records[i + 1] == records[1..][i];
    }
  }

  // ---- The message around it ----

  const HEADER_LEN := 12
  const CLASS_IN := 1
  const TYPE_OPT := 41
  const UDP_PAYLOAD := 1232

  datatype Fault =
    | Short | OtherQuery | NotAReply | OtherKind | NotOneQuestion | OtherQuestion
    | ServerFailed | Refused | Code(rcode: int) | Malformed

  /** A reply read: its records, whether the resolver validated them, whether the name exists. */
  datatype Reply<+T> = Reply(records: seq<T>, validated: bool, existed: bool) | Fails(fault: Fault)

  function Question(question: bytes, qtype: int): bytes
    requires 0 <= qtype < 65536
  {
    question + PutU16(qtype) + PutU16(CLASS_IN)
  }

  method BuildQuery(id: int, question: bytes, qtype: int) returns (msg: bytes)
    requires 0 <= id < 65536 && 0 <= qtype < 65536
    ensures msg == Query(id, question, qtype)
  {
    var header := PutU16(id) + PutU16(0x0100 + 0x0020) + PutU16(1) + PutU16(0) + PutU16(0) + PutU16(1);
    msg := header;
    msg := msg + question;
    msg := msg + PutU16(qtype);
    msg := msg + PutU16(CLASS_IN);
    msg := msg + [0];
    msg := msg + PutU16(TYPE_OPT);
    msg := msg + PutU16(UDP_PAYLOAD);
    msg := msg + PutU16(0) + PutU16(0x8000);
    msg := msg + PutU16(0);
    assert msg == Query(id, question, qtype);
  }

  /** A query: recursion desired and the authentic-data bit, one question, and an OPT
      record that raises the size of a reply and asks for DNSSEC. */
  function Query(id: int, question: bytes, qtype: int): bytes
    requires 0 <= id < 65536 && 0 <= qtype < 65536
  {
    PutU16(id) + [0x01, 0x20, 0, 1, 0, 0, 0, 0, 0, 1] + Question(question, qtype)
    + [0, 0, 41, 0x04, 0xD0, 0, 0, 0x80, 0, 0, 0]
  }

  ghost function ReplyTo<T>(raw: bytes, id: int, question: bytes, qtype: int, parse: Record -> Option<T>): Reply<T>
    requires 0 <= qtype < 65536
  {
    if |raw| < HEADER_LEN then Fails(Short)
    else
      var flags := U16(raw, 2);
      var end := HEADER_LEN + |Question(question, qtype)|;
      if U16(raw, 0) != id then Fails(OtherQuery)
      else if flags < 0x8000 then Fails(NotAReply)
      else if flags / 0x800 % 16 != 0 then Fails(OtherKind)
      else if U16(raw, 4) != 1 then Fails(NotOneQuestion)
      else if |raw| < end || raw[HEADER_LEN..end] != Question(question, qtype) then Fails(OtherQuestion)
      else
        match flags % 16
        case 0 =>
          (match Answers(raw, end, U16(raw, 6), qtype, Folded(question), parse)
           case None => Fails(Malformed)
           case Some(records) => Reply(records, flags / 32 % 2 == 1, true))
        case 2 => Fails(ServerFailed)
        case 3 => Reply([], flags / 32 % 2 == 1, false)
        case 5 => Fails(Refused)
        case rcode => Fails(Code(rcode))
  }

  method ParseReply<T>(raw: bytes, id: int, question: bytes, qtype: int,
                       parse: Record -> Option<T>) returns (r: Reply<T>)
    requires 0 <= qtype < 65536
    ensures r == ReplyTo(raw, id, question, qtype, parse)
  {
    if |raw| < HEADER_LEN {
      return Fails(Short);
    }
    if U16(raw, 0) != id {
      return Fails(OtherQuery);
    }
    var flags := U16(raw, 2);
    if flags < 0x8000 {
      return Fails(NotAReply);
    }
    if flags / 0x800 % 16 != 0 {
      return Fails(OtherKind);
    }
    if U16(raw, 4) != 1 {
      return Fails(NotOneQuestion);
    }
    var wanted := question + PutU16(qtype) + PutU16(CLASS_IN);
    var end := HEADER_LEN + |wanted|;
    if |raw| < end || raw[HEADER_LEN..end] != wanted {
      return Fails(OtherQuestion);
    }
    var validated := flags / 32 % 2 == 1;
    var rcode := flags % 16;
    if rcode == 3 {
      return Reply([], validated, false);
    } else if rcode == 2 {
      return Fails(ServerFailed);
    } else if rcode == 5 {
      return Fails(Refused);
    } else if rcode != 0 {
      return Fails(Code(rcode));
    }
    var found := ParseAnswers(raw, end, U16(raw, 6), qtype, Folded(question), parse);
    if found.None? {
      return Fails(Malformed);
    }
    return Reply(found.value, validated, true);
  }

  /** A query sent back with other flags, counts and records after it, as an answer comes back:
      a reply to itself if the response bit is set and the operation is a query. What it says
      is in the last four bits: no error and its records, no such name, or a fault; and the
      resolver validated it if the authentic-data bit is set. */
  lemma QueryEchoed<T>(id: int, question: bytes, qtype: int, high: byte, low: byte, count: int, others: bytes,
                       tail: bytes,
                       parse: Record -> Option<T>)
    requires 0 <= id < 65536 && 0 <= qtype < 65536 && 0 <= count < 65536 && |others| == 4
    ensures var query := Query(id, question, qtype);
            var end := 12 + |question| + 4;
            var reply := query[..2] + [high, low, 0, 1] + PutU16(count) + others + query[12..end] + tail;
            var said := ReplyTo(reply, id, question, qtype, parse);
            var validated := low / 32 % 2 == 1;
            if high < 0x80 then said == Fails(NotAReply)
            else if high >= 0x88 then said == Fails(OtherKind)
            else
              match low % 16
              case 0 => said == (match Answers(reply, end, count, qtype, Folded(question), parse)
                                 case None => Fails(Malformed)
                                 case Some(records) => Reply(records, validated, true))
              case 2 => said == Fails(ServerFailed)
              case 3 => said == Reply([], validated, false)
              case 5 => said == Fails(Refused)
              case rcode => said == Fails(Code(rcode))
  {
    hide Answers, Question;
    var asked := Question(question, qtype);
    var query := Query(id, question, qtype);
    var end := HEADER_LEN + |asked|;
    assert |asked| == |question| + 4 by {
      QuestionBytes(question, qtype);
    }
    assert query[..2] == PutU16(id);
    assert query[HEADER_LEN..end] == asked;
    var reply := query[..2] + [high, low, 0, 1] + PutU16(count) + others + query[HEADER_LEN..end] + tail;
    assert reply[0] == PutU16(id)[0] && reply[1] == PutU16(id)[1];
    assert reply[2] == high && reply[3] == low && reply[4] == 0 && reply[5] == 1;
    assert reply[6] == PutU16(count)[0] && reply[7] == PutU16(count)[1];
    assert reply[HEADER_LEN..end] == asked;
    FlagBits(high, low);
  }

  lemma QuestionBytes(question: bytes, qtype: int)
    requires 0 <= qtype < 65536
    ensures Question(question, qtype) == question + [qtype / 256, qtype % 256, 0, 1]
  {}

  lemma FlagBits(high: byte, low: byte)
    ensures var flags := (high as int) * 256 + low as int;
            && (flags < 0x8000 <==> high < 0x80) && (high >= 0x80 ==> (flags / 0x800 % 16 == 0 <==> high < 0x88))
            && flags % 16 == low % 16 && flags / 32 % 2 == low / 32 % 2
  {
    LastBits(high, low);
    AuthenticBit(high, low);
    if high >= 0x80 {
      OperationBits(high, low);
    }
  }

  lemma LastBits(high: int, low: int)
    ensures (high * 256 + low) % 16 == low % 16
  {}

  lemma AuthenticBit(high: int, low: int)
    requires 0 <= high < 256 && 0 <= low < 256
    ensures (high * 256 + low) / 32 % 2 == low / 32 % 2
  {
    var q := low / 32;
    assert high * 256 + low == 32 * (high * 8 + q) + low % 32;
    assert (high * 256 + low) / 32 == high * 8 + q;
    EvenMore(high, q);
  }

  lemma EvenMore(high: int, q: int)
    ensures (high * 8 + q) % 2 == q % 2
  {}

  lemma OperationBits(high: int, low: int)
    requires 0x80 <= high < 0x100 && 0 <= low < 256
    ensures (high * 256 + low) / 0x800 % 16 == 0 <==> high < 0x88
  {
    assert (high * 256 + low) / 0x800 == high / 8;
  }

  /** A message taken for an answer to the query, whatever the answer is. */
  predicate Taken<T>(r: Reply<T>) {
    r.Reply? || r.fault in {ServerFailed, Refused, Malformed} || r.fault.Code?
  }

  /** A message is taken for an answer exactly when it starts as one: the identifier, the response bit and
      no operation but a query, one question, and that question byte for byte. */
  lemma TakenExactly<T>(raw: bytes, id: int, question: bytes, qtype: int, parse: Record -> Option<T>)
    requires 0 <= id < 65536 && 0 <= qtype < 65536
    ensures var end := 12 + |question| + 4;
            Taken(ReplyTo(raw, id, question, qtype, parse)) <==>
              && |raw| >= end && raw[0] == id / 256 && raw[1] == id % 256 && 0x80 <= raw[2] < 0x88
              && raw[4] == 0 && raw[5] == 1
              && raw[12..end] == question + [qtype / 256, qtype % 256, 0, 1]
  {
    hide Answers, Question;
    QuestionBytes(question, qtype);
    if |raw| >= HEADER_LEN {
      FlagBits(raw[2], raw[3]);
      HighLow(raw[0], raw[1], id);
      HighLow(raw[4], raw[5], 1);
    }
  }

  lemma HighLow(high: byte, low: byte, n: int)
    requires 0 <= n < 65536
    ensures (high as int) * 256 + low as int == n <==> high == n / 256 && low == n % 256
  {}

  lemma SliceOfSlice(s: bytes, a: nat, b: nat, i: nat, j: nat)
    requires i <= j && a + j <= b <= |s|
    ensures s[a..b][i..j] == s[a + i..a + j]
  {
    var x, y := s[a..b][i..j], s[a + i..a + j];
    assert |x| == |y|;
    assert forall k :: 0 <= k < |x| ==> x[k] == s[a + i + k] == y[k];
  }

  /** What a message is taken for fixes where its question stands and what it says. */
  lemma TakenFor<T>(raw: bytes, id: int, question: bytes, qtype: int, parse: Record -> Option<T>)
    requires 0 <= qtype < 65536 && Taken(ReplyTo(raw, id, question, qtype, parse))
    ensures |raw| >= HEADER_LEN && U16(raw, 0) == id
    ensures Stands(raw, HEADER_LEN, question) && Stands(raw, HEADER_LEN + |question|, PutU16(qtype))
  {
    hide Answers;
    var asked := Question(question, qtype);
    var end := HEADER_LEN + |asked|;
    assert raw[HEADER_LEN..end] == asked;
    SliceOfSlice(raw, HEADER_LEN, end, 0, |question|);
    SliceOfSlice(raw, HEADER_LEN, end, |question|, |question| + 2);
    assert asked[0..|question|] == question && asked[|question|..|question| + 2] == PutU16(qtype);
  }

  /** A message is an answer to one query: to one identifier, one name in the very case it
      was asked in, and one type. No wire name begins another, so none can be mistaken. */
  lemma AnswersOneQuery<T, U>(raw: bytes, id: int, labels: seq<bytes>, qtype: int, parse: Record -> Option<T>,
                              otherId: int, others: seq<bytes>, otherType: int, otherParse: Record -> Option<U>)
    requires 0 <= qtype < 65536 && 0 <= otherType < 65536 && Labels(labels) && Labels(others)
    requires Taken(ReplyTo(raw, id, Wire(labels), qtype, parse))
    requires Taken(ReplyTo(raw, otherId, Wire(others), otherType, otherParse))
    ensures id == otherId && Wire(labels) == Wire(others) && qtype == otherType
  {
    hide ReplyTo, Wire, PutU16;
    TakenFor(raw, id, Wire(labels), qtype, parse);
    TakenFor(raw, otherId, Wire(others), otherType, otherParse);
    AfterWire(raw, HEADER_LEN, labels);
    AfterWire(raw, HEADER_LEN, others);
    assert Wire(labels) == Wire(others);
    assert U16(PutU16(qtype), 0) == qtype && U16(PutU16(otherType), 0) == otherType;
  }
}
