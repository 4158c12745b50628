/** Receipts and lists of them, read twice: to be checked (internal/ctlogs/verify.go)
    and to be counted (internal/certinfo/certinfo.go). Section 3.3 of RFC 6962. */
module SctList {
  import opened Bytes
  import opened Lists
  import opened Options

  const LOG_ID_LEN := 32

  /** The shortest receipt the checker takes, and the shortest the counter takes. */
  const MIN_SCT := 47
  const MIN_SERIALIZED_SCT := 43

  // ---- One receipt ----

  datatype Sct = Sct(logId: bytes, timestamp: bytes, extensions: bytes, hashAlg: byte, sigAlg: byte, signature: bytes)

  predicate Fits(s: Sct) {
    |s.logId| == LOG_ID_LEN && |s.timestamp| == 8 && |s.extensions| < 65536 && |s.signature| < 65536
  }

  function PutSct(s: Sct): bytes
    requires Fits(s)
  {
    [0] + s.logId + s.timestamp
    + PutU16(|s.extensions|) + s.extensions
    + [s.hashAlg, s.sigAlg] + PutU16(|s.signature|) + s.signature
  }

  function GetSct(b: bytes): Option<Sct> {
    if |b| < MIN_SCT || b[0] != 0 then None
    else
      var rest := b[43..];
      var extLen := U16(b, 41);
      if extLen > |rest| then None
      else
        var tail := rest[extLen..];
        if |tail| < 4 || U16(tail, 2) != |tail| - 4 then None
        else Some(Sct(b[1..33], b[33..41], rest[..extLen], tail[0], tail[1], tail[4..]))
  }

  method ParseSct(sct: bytes) returns (s: Option<Sct>)
    ensures s == GetSct(sct)
  {
    var b := sct;
    if |b| < MIN_SCT || b[0] != 0 {
      return None;
    }
    var logId := b[1..1 + LOG_ID_LEN];
    var timestamp := b[1 + LOG_ID_LEN..1 + LOG_ID_LEN + 8];
    b := b[1 + LOG_ID_LEN + 8..];
    var extLen := U16(b, 0);
    b := b[2..];
    assert b == sct[43..];
    if extLen > |b| {
      return None;
    }
    var extensions := b[..extLen];
    b := b[extLen..];
    if |b| < 4 {
      return None;
    }
    var hashAlg, sigAlg := b[0], b[1];
    var sigLen := U16(b, 2);
    b := b[4..];
    if sigLen != |b| {
      return None;
    }
    return Some(Sct(logId, timestamp, extensions, hashAlg, sigAlg, b));
  }

  lemma PutGetSct(s: Sct)
    requires Fits(s)
    ensures GetSct(PutSct(s)) == Some(s)
  {
    var b := PutSct(s);
    var tail := [s.hashAlg, s.sigAlg] + PutU16(|s.signature|) + s.signature;
    assert b == ([0] + s.logId + s.timestamp) + PutU16(|s.extensions|) + (s.extensions + tail);
    assert b[41] == PutU16(|s.extensions|)[0] && b[42] == PutU16(|s.extensions|)[1];
    assert b[1..33] == s.logId && b[33..41] == s.timestamp;
    var rest := b[43..];
    assert rest == s.extensions + tail;
    assert rest[..|s.extensions|] == s.extensions && rest[|s.extensions|..] == tail;
    assert tail[2] == PutU16(|s.signature|)[0] && tail[3] == PutU16(|s.signature|)[1];
    assert tail[4..] == s.signature;
  }

  lemma U16Unique(b: bytes, at: nat, n: int)
    requires at + 2 <= |b| && n == U16(b, at)
    ensures b[at..at + 2] == PutU16(n)
  {}

  /** A receipt has one serialization, and only serializations are receipts. */
  lemma SctExactly(b: bytes, s: Sct)
    ensures GetSct(b) == Some(s) <==> Fits(s) && b == PutSct(s)
  {
    hide GetSct, PutSct;
    if Fits(s) {
      PutGetSct(s);
    }
    if GetSct(b) == Some(s) {
      GetPutSct(b, s);
    }
  }

  lemma GetPutSct(b: bytes, s: Sct)
    requires GetSct(b) == Some(s)
    ensures Fits(s) && b == PutSct(s)
  {
    var n := U16(b, 41);
    var rest := b[43..];
    var tail := rest[n..];
    U16Unique(b, 41, n);
    U16Unique(tail, 2, |tail| - 4);
    TailPieces(tail);
    HeadPieces(b);
    assert rest == rest[..n] + tail;
  }

  lemma TailPieces(tail: bytes)
    requires |tail| >= 4
    ensures tail == [tail[0], tail[1]] + tail[2..4] + tail[4..]
  {}

  lemma HeadPieces(b: bytes)
    requires |b| >= 43
    ensures b == [b[0]] + b[1..33] + b[33..41] + b[41..43] + b[43..]
  {}

  // ---- A list ----

  predicate EntriesFit(entries: seq<bytes>, shortest: nat) {
    forall i :: 0 <= i < |entries| ==> shortest <= |entries[i]| < 65536
  }

  function PutBody(entries: seq<bytes>): bytes
    requires EntriesFit(entries, 0)
  {
    if entries == [] then [] else PutU16(|entries[0]|) + entries[0] + PutBody(entries[1..])
  }

  predicate ListFits(entries: seq<bytes>, shortest: nat) {
    EntriesFit(entries, shortest) && |PutBody(entries)| < 65536
  }

  function PutList(entries: seq<bytes>): bytes
    requires ListFits(entries, 0)
  {
    PutU16(|PutBody(entries)|) + PutBody(entries)
  }

  function SplitBody(body: bytes, shortest: nat): Option<seq<bytes>> {
    if body == [] then Some([])
    else if |body| < 2 then None
    else
      var n, rest := U16(body, 0), body[2..];
      if n < shortest || n > |rest| then None
      else Prepend([rest[..n]], SplitBody(rest[n..], shortest))
  }

  function Split(list: bytes, shortest: nat): Option<seq<bytes>> {
    if |list| < 2 || U16(list, 0) != |list| - 2 then None else SplitBody(list[2..], shortest)
  }

  method SplitList(raw: bytes) returns (out: Option<seq<bytes>>)
    ensures out == Split(raw, MIN_SCT)
  {
    if |raw| < 2 || U16(raw, 0) != |raw| - 2 {
      return None;
    }
    var list := raw[2..];
    var entries: seq<bytes> := [];
    PrependLaws([], [], Split(raw, MIN_SCT));
    while |list| > 0
      invariant Split(raw, MIN_SCT) == Prepend(entries, SplitBody(list, MIN_SCT))
      decreases |list|
    {
      if |list| < 2 {
        return None;
      }
      var n := U16(list, 0);
      list := list[2..];
      if n < MIN_SCT || n > |list| {
        return None;
      }
      PrependLaws(entries, list[..n], SplitBody(list[n..], MIN_SCT));
      entries := entries + [list[..n]];
      list := list[n..];
    }
    PrependLaws(entries, [], None);
    return Some(entries);
  }

  lemma {:induction false} BodyPrinted(body: bytes, shortest: nat)
    requires SplitBody(body, shortest).Some?
    ensures EntriesFit(SplitBody(body, shortest).value, shortest) && body == PutBody(SplitBody(body, shortest).value)
    decreases |body|
  {
    if body != [] {
      var n, rest := U16(body, 0), body[2..];
      U16Unique(body, 0, n);
      assert body == PutU16(n) + rest[..n] + rest[n..];
      BodyPrinted(rest[n..], shortest);
      var more := SplitBody(rest[n..], shortest).value;
      assert ([rest[..n]] + more)[1..] == more;
    }
  }

  lemma {:induction false} BodyRead(shortest: nat, entries: seq<bytes>)
    requires EntriesFit(entries, shortest)
    ensures SplitBody(PutBody(entries), shortest) == Some(entries)
  {
    if entries != [] {
      var body, n := PutBody(entries), |entries[0]|;
      var rest := body[2..];
      assert body[0] == PutU16(n)[0] && body[1] == PutU16(n)[1];
      assert rest == entries[0] + PutBody(entries[1..]);
      assert rest[..n] == entries[0] && rest[n..] == PutBody(entries[1..]);
      BodyRead(shortest, entries[1..]);
      assert [entries[0]] + entries[1..] == entries;
    }
  }

  /** A list has one serialization, and only serializations are lists. */
  lemma ListExactly(list: bytes, shortest: nat, entries: seq<bytes>)
    ensures Split(list, shortest) == Some(entries) <==> ListFits(entries, shortest) && list == PutList(entries)
  {
    if |list| >= 2 {
      U16Unique(list, 0, U16(list, 0));
      assert list == list[..2] + list[2..];
      if SplitBody(list[2..], shortest).Some? {
        BodyPrinted(list[2..], shortest);
      }
    }
    if ListFits(entries, shortest) && list == PutList(entries) {
      assert list[2..] == PutBody(entries);
      BodyRead(shortest, entries);
      assert list[0] == PutU16(|PutBody(entries)|)[0] && list[1] == PutU16(|PutBody(entries)|)[1];
    }
  }

  // ---- Counting ----

  /** The log each entry names. */
  function LogIds(entries: seq<bytes>): (ids: seq<bytes>)
    requires forall i :: 0 <= i < |entries| ==> |entries[i]| >= MIN_SERIALIZED_SCT
    ensures |ids| == |entries|
  {
    seq(|entries|, i requires 0 <= i < |entries| => entries[i][1..1 + LOG_ID_LEN])
  }

  ghost predicate AllVersion1(entries: seq<bytes>) {
    forall i :: 0 <= i < |entries| ==> entries[i] != [] && entries[i][0] == 0
  }

  /** What the counter takes for a list. */
  ghost predicate Countable(list: bytes) {
    Split(list, MIN_SERIALIZED_SCT).Some? && AllVersion1(Split(list, MIN_SERIALIZED_SCT).value)
  }

  lemma EntriesLong(list: bytes, shortest: nat)
    requires Split(list, shortest).Some?
    ensures forall i :: 0 <= i < |Split(list, shortest).value| ==> |Split(list, shortest).value[i]| >= shortest
  {
    ListExactly(list, shortest, Split(list, shortest).value);
  }

  method ParseSctList(raw: bytes) returns (count: nat, logIds: seq<bytes>, malformed: bool)
    ensures malformed <==> !Countable(raw)
    ensures malformed ==> count == 0 && logIds == []
    ensures !malformed ==> (
      var entries := Split(raw, MIN_SERIALIZED_SCT).value;
      EntriesLong(raw, MIN_SERIALIZED_SCT);
      count == |entries| && logIds == Distinct(LogIds(entries)))
  {
    hide SplitBody, Distinct, LogIds, AllVersion1;
    count, logIds, malformed := 0, [], true;
    if |raw| < 2 || U16(raw, 0) != |raw| - 2 {
      return;
    }
    var list := raw[2..];
    var n: nat, ids: seq<bytes>, seen: set<bytes> := 0, [], {};
    ghost var done: seq<bytes> := [];
    PrependNothing(Split(raw, MIN_SERIALIZED_SCT));
    NoneCounted();
    while |list| > 0
      invariant Split(raw, MIN_SERIALIZED_SCT) == Prepend(done, SplitBody(list, MIN_SERIALIZED_SCT))
      invariant AllVersion1(done) && n == |done|
      invariant forall i :: 0 <= i < |done| ==> |done[i]| >= MIN_SERIALIZED_SCT
      invariant ids == Distinct(LogIds(done)) && forall id :: id in seen <==> id in ids
      decreases |list|
    {
      SplitHere(list, MIN_SERIALIZED_SCT);
      if |list| < 2 {
        return;
      }
      var size := U16(list, 0);
      list := list[2..];
      if size < MIN_SERIALIZED_SCT || size > |list| {
        return;
      }
      var sct := list[..size];
      list := list[size..];
      PrependLaws(done, sct, SplitBody(list, MIN_SERIALIZED_SCT));
      CountedMore(done, sct);
      if sct[0] != 0 {
        WrongVersion(raw, done, sct, SplitBody(list, MIN_SERIALIZED_SCT));
        return;
      }
      var id := sct[1..1 + LOG_ID_LEN];
      done := done + [sct];
      if id !in seen {
        seen := seen + {id};
        ids := ids + [id];
      }
      n := n + 1;
    }
    SplitHere(list, MIN_SERIALIZED_SCT);
    PrependLaws(done, [], None);
    return n, ids, false;
  }

  lemma SplitHere(body: bytes, shortest: nat)
    ensures body == [] ==> SplitBody(body, shortest) == Some([])
    ensures 0 < |body| < 2 ==> SplitBody(body, shortest) == None
    ensures |body| >= 2 ==>
              var n, rest := U16(body, 0), body[2..];
              SplitBody(body, shortest) ==
              if n < shortest || n > |rest| then None else Prepend([rest[..n]], SplitBody(rest[n..], shortest))
  {}

  lemma NoneCounted()
    ensures AllVersion1([]) && Distinct(LogIds([])) == []
  {}

  lemma CountedMore(done: seq<bytes>, sct: bytes)
    requires |sct| >= MIN_SERIALIZED_SCT && forall i :: 0 <= i < |done| ==> |done[i]| >= MIN_SERIALIZED_SCT
    ensures var ids, id := Distinct(LogIds(done)), sct[1..1 + LOG_ID_LEN];
            Distinct(LogIds(done + [sct])) == if id in ids then ids else ids + [id]
    ensures AllVersion1(done) && sct[0] == 0 ==> AllVersion1(done + [sct])
  {
    assert LogIds(done + [sct]) == LogIds(done) + [sct[1..1 + LOG_ID_LEN]];
    DistinctMore(LogIds(done), sct[1..1 + LOG_ID_LEN]);
  }

  lemma WrongVersion(raw: bytes, done: seq<bytes>, sct: bytes, more: Option<seq<bytes>>)
    requires Split(raw, MIN_SERIALIZED_SCT) == Prepend(done + [sct], more) && sct != [] && sct[0] != 0
    ensures !Countable(raw)
  {
    if more.Some? {
      assert Split(raw, MIN_SERIALIZED_SCT).value[|done|] == sct;
    }
  }

  // ---- Where the two agree ----

  lemma {:induction false} SplitHigher(body: bytes, lower: nat, higher: nat)
    requires lower <= higher
    ensures SplitBody(body, higher) ==
            if SplitBody(body, lower).Some?
                && (forall i :: 0 <= i < |SplitBody(body, lower).value| ==> |SplitBody(body, lower).value[i]| >= higher)
            then SplitBody(body, lower) else None
    decreases |body|
  {
    if |body| >= 2 && lower <= U16(body, 0) <= |body[2..]| {
      var n, rest := U16(body, 0), body[2..];
      SplitHigher(rest[n..], lower, higher);
      if SplitBody(rest[n..], lower).Some? {
        var more := SplitBody(rest[n..], lower).value;
        assert SplitBody(body, lower).value[0] == rest[..n];
        assert forall i :: 0 <= i < |more| ==> SplitBody(body, lower).value[i + 1] == more[i];
      }
    }
  }

  /** The checker and the counter read the same entries. They part company exactly over
      an entry of 43 to 46 bytes, which only the counter takes, and over a version other
      than the first, which only the checker leaves for later. */
  lemma ReadersAgree(list: bytes)
    ensures Split(list, MIN_SCT).Some? <==>
              Split(list, MIN_SERIALIZED_SCT).Some?
              && forall i :: 0 <= i < |Split(list, MIN_SERIALIZED_SCT).value| ==>
                  |Split(list, MIN_SERIALIZED_SCT).value[i]| >= MIN_SCT
    ensures Split(list, MIN_SCT).Some? ==> Split(list, MIN_SCT) == Split(list, MIN_SERIALIZED_SCT)
    ensures Split(list, MIN_SCT).Some? && AllVersion1(Split(list, MIN_SCT).value) ==> Countable(list)
    ensures Countable(list) && Split(list, MIN_SCT).None? ==>
              exists i :: 0 <= i < |Split(list, MIN_SERIALIZED_SCT).value|
                  && |Split(list, MIN_SERIALIZED_SCT).value[i]| < MIN_SCT
  {
    if |list| >= 2 {
      SplitHigher(list[2..], MIN_SERIALIZED_SCT, MIN_SCT);
    }
  }

  /** The two minimums do differ: one receipt of forty-three zeros is counted and not read. */
  lemma ShortReceipt()
    ensures var list := PutU16(45) + PutU16(43) + seq(43, _ => 0);
            Countable(list) && Split(list, MIN_SCT).None?
  {
    var sct := seq(43, _ => 0);
    var list := PutU16(45) + PutU16(43) + sct;
    assert list[2..] == PutU16(43) + sct && list[2..][2..] == sct && sct[..43] == sct;
    assert sct[43..] == [];
    assert SplitBody(list[2..], MIN_SERIALIZED_SCT) == Prepend([sct], SplitBody([], MIN_SERIALIZED_SCT));
  }
}
