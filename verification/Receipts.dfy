/** Checking receipts and saying whether all of them verified (internal/ctlogs/verify.go,
    internal/scan/receipts.go). */
module Receipts {
  import opened Bytes
  import opened Lists
  import opened Numbers
  import opened Options
  import opened SctList

  const HASH_SHA256 := 4
  const SIG_RSA := 1
  const SIG_ECDSA := 3

  datatype Status = Verified | BadSignature | UnknownLog | Unsupported | Unreadable

  datatype LogKey = Ecdsa(point: bytes) | Rsa(modulus: bytes) | OtherKey

  /** The list of logs, and signature verification over SHA-256. */
  datatype World = World(log: bytes -> Option<LogKey>, verifies: (LogKey, bytes, bytes) -> bool)

  /** What a receipt vouches for: a certificate as sent, or one rebuilt as it was before
      its receipts, with the issuer's key. */
  datatype Entry = X509(certificate: bytes) | Precert(issuerHash: bytes, tbs: bytes)

  predicate EntryFits(e: Entry) {
    match e
    case X509(certificate) => |certificate| < 0x100_0000
    case Precert(issuerHash, tbs) => |issuerHash| == 32 && |tbs| < 0x100_0000
  }

  /** A value behind a three-byte length, of which only three bytes are kept. */
  function Opaque24(value: bytes): bytes {
    PutU24(|value| % 0x100_0000) + value
  }

  function KindBytes(e: Entry): bytes {
    PutU16(if e.X509? then 0 else 1)
  }

  function BodyBytes(e: Entry): bytes {
    match e
    case X509(certificate) => Opaque24(certificate)
    case Precert(issuerHash, tbs) => issuerHash + Opaque24(tbs)
  }

  function EntryBytes(e: Entry): bytes {
    KindBytes(e) + BodyBytes(e)
  }

  function SignedBytes(timestamp: bytes, e: Entry, extensions: bytes): bytes
    requires |extensions| < 65536
  {
    [0, 0] + timestamp + EntryBytes(e) + PutU16(|extensions|) + extensions
  }

  function KeyMatches(key: LogKey, sigAlg: byte): bool {
    match key
    case Ecdsa(_) => sigAlg == SIG_ECDSA
    case Rsa(_) => sigAlg == SIG_RSA
    case OtherKey => false
  }

  /** One receipt checked against an entry, which is missing when the issuer is. */
  function Check(w: World, sct: bytes, entry: Option<Entry>): Status {
    match GetSct(sct)
    case None => Unreadable
    case Some(p) =>
      match w.log(p.logId)
      case None => UnknownLog
      case Some(key) =>
        if p.hashAlg != HASH_SHA256 then Unsupported
        else if entry.None? then Unreadable
        else
          SctExactly(sct, p);
          if !KeyMatches(key, p.sigAlg) then Unsupported
          else if w.verifies(key, SignedBytes(p.timestamp, entry.value, p.extensions), p.signature) then Verified
          else BadSignature
  }

  lemma Opaque24Parts(a: bytes, s: bytes)
    requires |a| < 0x100_0000
    ensures Opaque24(a) + s == PutU24(|a|) + (a + s)
  {}

  lemma Opaque24Prefix(a: bytes, b: bytes, s: bytes, t: bytes)
    requires |a| < 0x100_0000 && |b| < 0x100_0000 && Opaque24(a) + s == Opaque24(b) + t
    ensures a == b && s == t
  {
    var m, n := PutU24(|a|), PutU24(|b|);
    hide PutU24;
    Opaque24Parts(a, s);
    Opaque24Parts(b, t);
    SamePrefix(m, a + s, n, b + t);
    assert U24(m, 0) == |a| && U24(n, 0) == |b|;
    SamePrefix(a, s, b, t);
  }

  lemma EntryPrefix(d: Entry, e: Entry, s: bytes, t: bytes)
    requires EntryFits(d) && EntryFits(e) && EntryBytes(d) + s == EntryBytes(e) + t
    ensures d == e && s == t
  {
    hide Opaque24, PutU16;
    var (m, x, n, y) := (KindBytes(d), BodyBytes(d) + s, KindBytes(e), BodyBytes(e) + t);
    assert EntryBytes(d) + s == m + x && EntryBytes(e) + t == n + y;
    SamePrefix(m, x, n, y);
    assert U16(m, 0) == (if d.X509? then 0 else 1) && U16(n, 0) == (if e.X509? then 0 else 1);
    if d.X509? {
      Opaque24Prefix(d.certificate, e.certificate, s, t);
    } else {
      assert x == d.issuerHash + (Opaque24(d.tbs) + s) && y == e.issuerHash + (Opaque24(e.tbs) + t);
      SamePrefix(d.issuerHash, Opaque24(d.tbs) + s, e.issuerHash, Opaque24(e.tbs) + t);
      Opaque24Prefix(d.tbs, e.tbs, s, t);
    }
  }

  /** The signed bytes name one timestamp, one entry and one set of extensions: a signature
      over them vouches for nothing else. */
  lemma SignedBytesUnambiguous(s: bytes, d: Entry, x: bytes, t: bytes, e: Entry, y: bytes)
    requires |s| == 8 && |t| == 8 && EntryFits(d) && EntryFits(e) && |x| < 65536 && |y| < 65536
    requires SignedBytes(s, d, x) == SignedBytes(t, e, y)
    ensures s == t && d == e && x == y
  {
    hide EntryBytes, PutU16;
    var u, v := PutU16(|x|) + x, PutU16(|y|) + y;
    assert SignedBytes(s, d, x) == ([0, 0] + s) + (EntryBytes(d) + u);
    assert SignedBytes(t, e, y) == ([0, 0] + t) + (EntryBytes(e) + v);
    SamePrefix([0, 0] + s, EntryBytes(d) + u, [0, 0] + t, EntryBytes(e) + v);
    SamePrefix([0, 0], s, [0, 0], t);
    EntryPrefix(d, e, u, v);
    SamePrefix(PutU16(|x|), x, PutU16(|y|), y);
  }

  // ---- All of them ----

  function CheckAll(w: World, scts: seq<bytes>, entry: Option<Entry>): (statuses: seq<Status>)
    ensures |statuses| == |scts|
    ensures forall i :: 0 <= i < |scts| ==> statuses[i] == Check(w, scts[i], entry)
  {
    seq(|scts|, i requires 0 <= i < |scts| => Check(w, scts[i], entry))
  }

  /** The receipts inside the certificate: the list of its extension, if it has one. A
      wrapping that does not open leaves an empty string, which is no list. */
  function CheckEmbedded(w: World, list: Option<bytes>, entry: Option<Entry>): seq<Status> {
    match list
    case None => []
    case Some(raw) =>
      match Split(raw, MIN_SCT)
      case None => [Unreadable]
      case Some(scts) => CheckAll(w, scts, entry)
  }

  /** What a scan brought back: whether a certificate came, the receipts inside it and what
      they sign, those of the handshake and what they sign, the logs these name, and the
      two facts that are passed on. */
  datatype Scan = Scan(
    chain: bool,
    list: Option<bytes>, embedded: Option<Entry>,
    scts: seq<bytes>, sent: Option<Entry>, sentIds: seq<bytes>,
    stapled: bool, trusted: bool)

  /** The list of logs the program carries, by version and date. */
  datatype LogList = LogList(version: string, date: string)

  function Statuses(w: World, s: Scan): seq<Status> {
    CheckEmbedded(w, s.list, s.embedded) + CheckAll(w, s.scts, s.sent)
  }

  function Count(statuses: seq<Status>, status: Status): nat {
    if statuses == [] then 0 else (if statuses[0] == status then 1 else 0) + Count(statuses[1..], status)
  }

  datatype Facts = Facts(
    embedded: nat, fromLogs: nat, inHandshake: nat, stapled: bool, trusted: bool,
    checked: bool, listRefused: bool, listVersion: string, listDate: string,
    verified: nat, badSignature: nat, unknownLog: nat, unreadable: nat)

  /** How many receipts the certificate was counted to carry. */
  ghost function Counted(list: Option<bytes>): nat {
    if list.Some? && Countable(list.value) then |Split(list.value, MIN_SERIALIZED_SCT).value| else 0
  }

  /** The logs they name. */
  ghost function CountedIds(list: Option<bytes>): seq<bytes> {
    if list.Some? && Countable(list.value) then
      EntriesLong(list.value, MIN_SERIALIZED_SCT);
      Distinct(LogIds(Split(list.value, MIN_SERIALIZED_SCT).value))
    else []
  }

  function Members(ids: seq<bytes>): set<bytes> {
    set id | id in ids
  }

  method DistinctLogs(sets: seq<seq<bytes>>) returns (n: nat)
    ensures n == |set i, id | 0 <= i < |sets| && id in sets[i] :: id|
  {
    var seen: set<bytes> := {};
    for i := 0 to |sets|
      invariant seen == set j, id | 0 <= j < i && id in sets[j] :: id
    {
      ghost var before := seen;
      for k := 0 to |sets[i]|
        invariant seen == before + Members(sets[i][..k])
      {
        assert sets[i][..k + 1] == sets[i][..k] + [sets[i][k]];
        seen := seen + {sets[i][k]};
      }
      assert sets[i][..|sets[i]|] == sets[i];
    }
    return |seen|;
  }

  /** Each receipt in the column of its status. */
  function InColumns(f: Facts, statuses: seq<Status>): Facts {
    f.(verified := Count(statuses, Verified),
       badSignature := Count(statuses, BadSignature),
       unknownLog := Count(statuses, UnknownLog),
       unreadable := Count(statuses, Unsupported) + Count(statuses, Unreadable))
  }

  method Tally(statuses: seq<Status>, carried: LogList, f0: Facts) returns (f: Facts)
    requires f0.verified == f0.badSignature == f0.unknownLog == f0.unreadable == 0
    ensures f == InColumns(f0.(checked := true, listVersion := carried.version, listDate := carried.date), statuses)
    ensures f.verified + f.badSignature + f.unknownLog + f.unreadable == |statuses|
  {
    hide Count, InColumns;
    f := f0.(checked := true);
    f := f.(listVersion := carried.version);
    f := f.(listDate := carried.date);
    ghost var f1 := f;
    var i := 0;
    NoneInColumns(f);
    assert statuses[..0] == [];
    while i < |statuses|
      invariant 0 <= i <= |statuses|
      invariant f == InColumns(f1, statuses[..i])
      invariant f.verified + f.badSignature + f.unknownLog + f.unreadable == i
    {
      OneMoreInColumns(f1, statuses[..i], statuses[i]);
      assert statuses[..i + 1] == statuses[..i] + [statuses[i]];
      match statuses[i] {
        case Verified => f := f.(verified := f.verified + 1);
        case BadSignature => f := f.(badSignature := f.badSignature + 1);
        case UnknownLog => f := f.(unknownLog := f.unknownLog + 1);
        case _ => f := f.(unreadable := f.unreadable + 1);
      }
      i := i + 1;
    }
    assert statuses[..i] == statuses;
  }

  lemma NoneInColumns(f: Facts)
    requires f.verified == f.badSignature == f.unknownLog == f.unreadable == 0
    ensures InColumns(f, []) == f
  {}

  lemma OneMoreInColumns(f: Facts, statuses: seq<Status>, last: Status)
    ensures var g := InColumns(f, statuses);
            InColumns(f, statuses + [last]) ==
            match last
            case Verified => g.(verified := g.verified + 1)
            case BadSignature => g.(badSignature := g.badSignature + 1)
            case UnknownLog => g.(unknownLog := g.unknownLog + 1)
            case _ => g.(unreadable := g.unreadable + 1)
  {
    hide Count;
    CountLast(statuses, last, Verified);
    CountLast(statuses, last, BadSignature);
    CountLast(statuses, last, UnknownLog);
    CountLast(statuses, last, Unsupported);
    CountLast(statuses, last, Unreadable);
  }

  lemma {:induction false} CountLast(statuses: seq<Status>, last: Status, status: Status)
    ensures Count(statuses + [last], status) == Count(statuses, status) + if last == status then 1 else 0
  {
    if statuses == [] {
      assert statuses + [last] == [last];
    } else {
      CountLast(statuses[1..], last, status);
      assert (statuses + [last])[1..] == statuses[1..] + [last];
    }
  }

  predicate AllReceiptsVerified(f: Facts) {
    f.checked && f.embedded + f.inHandshake > 0 && f.verified == f.embedded + f.inHandshake
  }

  /** The facts before any receipt is checked. */
  ghost function Unchecked(s: Scan): Facts {
    Facts(Counted(s.list), |Members(CountedIds(s.list)) + Members(s.sentIds)|, |s.scts|, s.stapled, s.trusted,
          false, false, "", "", 0, 0, 0, 0)
  }

  /** The facts of one scan. The carried list is missing when it did not verify. */
  ghost function FactsOf(w: World, carried: Option<LogList>, s: Scan): Facts {
    var statuses, f := Statuses(w, s), Unchecked(s);
    if !s.chain then f
    else if carried.None? then f.(listRefused := true)
    else InColumns(f.(checked := true, listVersion := carried.value.version, listDate := carried.value.date), statuses)
  }

  method TransparencyFor(w: World, carried: Option<LogList>, s: Scan) returns (f: Facts, all: bool)
    ensures f == FactsOf(w, carried, s) && all == AllReceiptsVerified(f)
  {
    var count: nat, ids: seq<bytes> := 0, [];
    if s.list.Some? {
      var n, named, _ := ParseSctList(s.list.value);
      count, ids := n, named;
    }
    var fromLogs := DistinctLogs([ids, s.sentIds]);
    assert (set i, id | 0 <= i < 2 && id in [ids, s.sentIds][i] :: id) == Members(ids) + Members(s.sentIds) by {
      assert [ids, s.sentIds][0] == ids && [ids, s.sentIds][1] == s.sentIds;
    }
    f := Facts(count, fromLogs, |s.scts|, s.stapled, s.trusted, false, false, "", "", 0, 0, 0, 0);
    if s.chain {
      if carried.None? {
        f := f.(listRefused := true);
      } else {
        f := Tally(Statuses(w, s), carried.value, f);
      }
    }
    all := AllReceiptsVerified(f);
  }

  // ---- What "all verified" is worth ----

  ghost predicate EveryVerified(statuses: seq<Status>) {
    statuses != [] && forall i :: 0 <= i < |statuses| ==> statuses[i] == Verified
  }

  lemma {:induction false} CountFull(statuses: seq<Status>, status: Status)
    ensures Count(statuses, status) <= |statuses|
    ensures Count(statuses, status) == |statuses| <==> forall i :: 0 <= i < |statuses| ==> statuses[i] == status
  {
    if statuses != [] {
      CountFull(statuses[1..], status);
      assert forall i :: 0 < i < |statuses| ==> statuses[i] == statuses[1..][i - 1];
    }
  }

  /** The counter refuses a list only where the checker finds a receipt it cannot read. */
  lemma UncountableUnreadable(w: World, raw: bytes, entry: Option<Entry>)
    requires !Countable(raw)
    ensures var statuses := CheckEmbedded(w, Some(raw), entry);
            exists i :: 0 <= i < |statuses| && statuses[i] == Unreadable
  {
    ReadersAgree(raw);
    var statuses := CheckEmbedded(w, Some(raw), entry);
    if Split(raw, MIN_SCT).Some? {
      EntriesLong(raw, MIN_SCT);
      var scts := Split(raw, MIN_SCT).value;
      var i :| 0 <= i < |scts| && !(scts[i] != [] && scts[i][0] == 0);
      assert GetSct(scts[i]).None?;
      assert statuses[i] == Unreadable;
    } else {
      assert statuses[0] == Unreadable;
    }
  }

  /** Nothing is said to be verified unless a certificate came and the carried list verified. */
  predicate Checks(carried: Option<LogList>, s: Scan) {
    s.chain && carried.Some?
  }

  /** Whether the certificate's own list is one the counter can read, if it has one. */
  ghost predicate ListCounted(s: Scan) {
    s.list.None? || Countable(s.list.value)
  }

  /** The verdict means what it says of this scan. */
  ghost predicate Means(w: World, carried: Option<LogList>, s: Scan) {
    AllReceiptsVerified(FactsOf(w, carried, s)) <==> Checks(carried, s) && EveryVerified(Statuses(w, s))
  }

  /** Where the certificate carries no list, or one the counter could read, the verdict is
      exactly that there are receipts and every one of them verified. */
  lemma VerdictSound(w: World, carried: Option<LogList>, s: Scan)
    requires ListCounted(s)
    ensures Means(w, carried, s)
  {
    var inside, outside := CheckEmbedded(w, s.list, s.embedded), CheckAll(w, s.scts, s.sent);
    var statuses := inside + outside;
    CountFull(statuses, Verified);
    if s.list.Some? {
      ReadersAgree(s.list.value);
      if Split(s.list.value, MIN_SCT).None? {
        assert inside == [Unreadable];
        assert statuses[0] == Unreadable;
        assert statuses[1..] == outside;
        CountFull(outside, Verified);
      }
    }
  }

  /** Where it could not, nothing inside the certificate was counted, and the verdict is that
      as many receipts verified, wherever they came from, as the handshake carried. */
  lemma VerdictUncounted(w: World, carried: Option<LogList>, s: Scan)
    requires !ListCounted(s)
    ensures !EveryVerified(Statuses(w, s))
    ensures AllReceiptsVerified(FactsOf(w, carried, s)) <==>
            Checks(carried, s) && s.scts != [] && Count(Statuses(w, s), Verified) == |s.scts|
  {
    UncountableUnreadable(w, s.list.value, s.embedded);
    var inside := CheckEmbedded(w, s.list, s.embedded);
    var i :| 0 <= i < |inside| && inside[i] == Unreadable;
    assert Statuses(w, s)[i] == Unreadable;
  }

  /** So of one scan the verdict is wrong exactly where the certificate's list was not counted
      and as many receipts verified as the handshake carried. */
  lemma VerdictExact(w: World, carried: Option<LogList>, s: Scan)
    ensures Means(w, carried, s) <==>
            ListCounted(s) || !Checks(carried, s) || s.scts == [] || Count(Statuses(w, s), Verified) != |s.scts|
  {
    if ListCounted(s) {
      VerdictSound(w, carried, s);
    } else {
      VerdictUncounted(w, carried, s);
    }
  }

  lemma {:induction false} CountConcat(a: seq<Status>, b: seq<Status>, status: Status)
    ensures Count(a + b, status) == Count(a, status) + Count(b, status)
  {
    if a == [] {
      assert a + b == b;
    } else {
      assert (a + b)[1..] == a[1..] + b;
      CountConcat(a[1..], b, status);
    }
  }

  /** A receipt nobody can read. */
  const NO_RECEIPT: bytes := [0]

  function Unreadables(n: nat): seq<bytes> {
    seq(n, _ => NO_RECEIPT)
  }

  /** What a handshake could carry to make the verdict of an uncounted list a wrong one: as
      many unreadable receipts as verified inside the certificate, and one that verifies. */
  function Misleading(w: World, s: Scan, good: bytes): Scan {
    s.(scts := Unreadables(Count(CheckEmbedded(w, s.list, s.embedded), Verified)) + [good])
  }

  lemma MisleadingWrong(w: World, carried: Option<LogList>, s: Scan, good: bytes)
    requires Checks(carried, s) && !ListCounted(s) && Check(w, good, s.sent) == Verified
    ensures !Means(w, carried, Misleading(w, s, good))
  {
    hide Check;
    var inside := CheckEmbedded(w, s.list, s.embedded);
    var n, t := Count(inside, Verified), Misleading(w, s, good);
    var unread, sent := CheckAll(w, Unreadables(n), s.sent), CheckAll(w, t.scts, s.sent);
    NoReceipt(w, s.sent);
    assert sent == unread + [Verified];
    CountNone(unread);
    CountConcat(unread, [Verified], Verified);
    CountConcat(inside, sent, Verified);
    assert Count([Verified], Verified) == 1;
    assert Statuses(w, t) == inside + sent;
    VerdictUncounted(w, carried, t);
  }

  lemma NoReceipt(w: World, entry: Option<Entry>)
    ensures Check(w, NO_RECEIPT, entry) == Unreadable
  {}

  lemma {:induction false} CountNone(statuses: seq<Status>)
    requires forall i :: 0 <= i < |statuses| ==> statuses[i] == Unreadable
    ensures Count(statuses, Verified) == 0
  {
    if statuses != [] {
      CountNone(statuses[1..]);
    }
  }

  /** The verdict of a certificate means what it says, whatever the handshake carries, if
      and only if the certificate has no list or one the counter can read. */
  lemma VerdictTrusted(w: World, carried: Option<LogList>, s: Scan, good: bytes)
    requires Checks(carried, s) && Check(w, good, s.sent) == Verified
    ensures (forall scts :: Means(w, carried, s.(scts := scts))) <==> ListCounted(s)
  {
    if ListCounted(s) {
      forall scts
        ensures Means(w, carried, s.(scts := scts))
      {
        VerdictSound(w, carried, s.(scts := scts));
      }
    } else {
      MisleadingWrong(w, carried, s, good);
      assert !Means(w, carried, s.(scts := Misleading(w, s, good).scts));
    }
  }

  /** A scan with an embedded list that is no list, and one handshake receipt that verifies.
      Everything is reported verified; the embedded list was unreadable. */
  lemma MalformedListUnnoticed(w: World, carried: Option<LogList>, s: Scan)
    requires Checks(carried, s) && s.list == Some([]) && |s.scts| == 1 && Check(w, s.scts[0], s.sent) == Verified
    ensures AllReceiptsVerified(FactsOf(w, carried, s)) && Statuses(w, s) == [Unreadable, Verified]
  {
    hide Check;
    assert CheckAll(w, s.scts, s.sent) == [Verified];
    CountConcat([Unreadable], [Verified], Verified);
    assert [Unreadable] + [Verified] == [Unreadable, Verified];
    assert Count([Unreadable], Verified) == 0 && Count([Verified], Verified) == 1;
    VerdictUncounted(w, carried, s);
  }

  /** A scan whose one handshake receipt carries a bad signature: the list inside holds a
      receipt that verifies and one of another version. Everything is reported verified. */
  lemma BadSignatureUnnoticed(w: World, carried: Option<LogList>, s: Scan, good: bytes, other: bytes)
    requires Checks(carried, s) && ListFits([good, other], MIN_SCT) && s.list == Some(PutList([good, other]))
    requires Check(w, good, s.embedded) == Verified && other != [] && other[0] != 0
    requires |s.scts| == 1 && Check(w, s.scts[0], s.sent) == BadSignature
    ensures AllReceiptsVerified(FactsOf(w, carried, s))
    ensures Statuses(w, s) == [Verified, Unreadable, BadSignature]
  {
    OtherVersion(w, other, s.embedded);
    hide Check, ListFits, PutList, Countable;
    var list := s.list.value;
    ListExactly(list, MIN_SCT, [good, other]);
    NotCounted(list, good, other);
    assert CheckEmbedded(w, s.list, s.embedded) == [Verified, Unreadable];
    assert CheckAll(w, s.scts, s.sent) == [BadSignature];
    assert Statuses(w, s) == [Verified, Unreadable, BadSignature];
    CountThree();
    VerdictUncounted(w, carried, s);
  }

  lemma OtherVersion(w: World, sct: bytes, entry: Option<Entry>)
    requires sct != [] && sct[0] != 0
    ensures Check(w, sct, entry) == Unreadable
  {}

  lemma NotCounted(list: bytes, good: bytes, other: bytes)
    requires Split(list, MIN_SCT) == Some([good, other]) && other != [] && other[0] != 0
    ensures !Countable(list)
  {
    ReadersAgree(list);
    assert [good, other][1] == other;
  }

  lemma CountThree()
    ensures Count([Verified, Unreadable, BadSignature], Verified) == 1
  {
    assert [Verified, Unreadable, BadSignature][1..] == [Unreadable, BadSignature];
    assert [Unreadable, BadSignature][1..] == [BadSignature];
    assert [BadSignature][1..] == [];
  }

  // ---- What a status says of the world ----

  /** Two and three bytes of a number, most significant first. */
  function TwoBytes(n: nat): bytes {
    [n / 256 % 256, n % 256]
  }

  function ThreeBytes(n: nat): bytes {
    [n / 65536 % 256, n / 256 % 256, n % 256]
  }

  /** A receipt as section 3.3 of RFC 6962 lays it out. */
  function SctBytes(p: Sct): bytes {
    [0] + p.logId + p.timestamp + TwoBytes(|p.extensions|) + p.extensions
    + [p.hashAlg, p.sigAlg] + TwoBytes(|p.signature|) + p.signature
  }

  /** What the log signs, as section 3.2 lays it out: version, kind of signature, time, the
      certificate or the issuer's key hash and the TBSCertificate, and the extensions. */
  function Vouched(p: Sct, e: Entry): bytes {
    [0, 0] + p.timestamp
    + (match e
       case X509(certificate) => [0, 0] + ThreeBytes(|certificate|) + certificate
       case Precert(issuerHash, tbs) => [0, 1] + issuerHash + ThreeBytes(|tbs|) + tbs)
    + TwoBytes(|p.extensions|) + p.extensions
  }

  /** A receipt that reads as `p`. */
  predicate IsReceipt(sct: bytes, p: Sct) {
    && |p.logId| == 32 && |p.timestamp| == 8 && |p.extensions| < 65536 && |p.signature| < 65536
    && sct == SctBytes(p)
  }

  /** The algorithm of a log's key: 3 for ECDSA, 1 for RSA, over SHA-256, which is 4. */
  predicate Algorithm(key: LogKey, p: Sct) {
    p.hashAlg == 4 && ((key.Ecdsa? && p.sigAlg == 3) || (key.Rsa? && p.sigAlg == 1))
  }

  /** A log that the list names signed this receipt for this entry. */
  ghost predicate VouchedFor(w: World, sct: bytes, entry: Option<Entry>) {
    exists p :: IsReceipt(sct, p) && w.log(p.logId).Some? && entry.Some?
                && Algorithm(w.log(p.logId).value, p)
                && w.verifies(w.log(p.logId).value, Vouched(p, entry.value), p.signature)
  }

  lemma LengthsWritten(n: nat)
    ensures n < 65536 ==> PutU16(n) == TwoBytes(n)
    ensures PutU24(n % 0x100_0000) == ThreeBytes(n)
  {
    var q, r := n / 65536, n % 65536;
    LowBytes(n, q / 256, q % 256, r / 256, r % 256);
  }

  lemma LowBytes(n: nat, a: nat, b: nat, c: nat, d: nat)
    requires b < 256 && c < 256 && d < 256 && n == 0x100_0000 * a + 65536 * b + 256 * c + d
    ensures var m := n % 0x100_0000;
            && m / 65536 == n / 65536 % 256 == b && m / 256 % 256 == n / 256 % 256 == c && m % 256 == n % 256 == d
  {
    var m := 65536 * b + 256 * c + d;
    ModOf(a, 0x100_0000, m);
    ModOf(b, 65536, 256 * c + d);
    ModOf(256 * a + b, 65536, 256 * c + d);
    ModOf(a, 256, b);
    ModOf(256 * b + c, 256, d);
    ModOf(65536 * a + 256 * b + c, 256, d);
    ModOf(b, 256, c);
    ModOf(256 * a + b, 256, c);
  }

  lemma SctWritten(p: Sct)
    requires Fits(p)
    ensures PutSct(p) == SctBytes(p)
  {
    LengthsWritten(|p.extensions|);
    LengthsWritten(|p.signature|);
  }

  /** A list as section 3.3 lays it out: its length, and each receipt behind its own. */
  function EntriesBytes(entries: seq<bytes>): bytes {
    if entries == [] then [] else TwoBytes(|entries[0]|) + entries[0] + EntriesBytes(entries[1..])
  }

  function ListBytes(entries: seq<bytes>): bytes {
    TwoBytes(|EntriesBytes(entries)|) + EntriesBytes(entries)
  }

  /** Entries none of which is shorter than this, and which fit in a list. */
  predicate Listed(entries: seq<bytes>, shortest: nat) {
    && (forall sct :: sct in entries ==> shortest <= |sct| < 65536)
    && |EntriesBytes(entries)| < 65536
  }

  lemma {:induction false} EntriesWritten(entries: seq<bytes>, shortest: nat)
    requires EntriesFit(entries, shortest)
    ensures PutBody(entries) == EntriesBytes(entries)
  {
    hide TwoBytes, PutU16;
    if entries != [] {
      LengthsWritten(|entries[0]|);
      EntriesWritten(entries[1..], shortest);
    }
  }

  lemma ListWritten(entries: seq<bytes>, shortest: nat)
    requires Listed(entries, shortest)
    ensures ListFits(entries, shortest) && PutList(entries) == ListBytes(entries)
  {
    hide TwoBytes, PutU16, PutBody, EntriesBytes;
    EntriesWritten(entries, shortest);
    LengthsWritten(|EntriesBytes(entries)|);
  }

  lemma SignedWritten(p: Sct, e: Entry)
    requires |p.extensions| < 65536
    ensures SignedBytes(p.timestamp, e, p.extensions) == Vouched(p, e)
  {
    LengthsWritten(|p.extensions|);
    assert PutU16(0) == [0, 0] && PutU16(1) == [0, 1];
    match e
    case X509(certificate) =>
      LengthsWritten(|certificate|);
      assert EntryBytes(e) == [0, 0] + ThreeBytes(|certificate|) + certificate;
    case Precert(issuerHash, tbs) =>
      LengthsWritten(|tbs|);
      assert EntryBytes(e) == [0, 1] + issuerHash + ThreeBytes(|tbs|) + tbs;
  }

  /** What a receipt that reads is found to be. */
  lemma CheckMeans(w: World, sct: bytes, entry: Option<Entry>, p: Sct)
    requires IsReceipt(sct, p)
    ensures var key := w.log(p.logId);
            && (Check(w, sct, entry) == UnknownLog <==> key.None?)
            && (Check(w, sct, entry) == Unreadable <==> key.Some? && p.hashAlg == 4 && entry.None?)
            && (Check(w, sct, entry) == Unsupported <==>
                  key.Some? && !Algorithm(key.value, p) && (p.hashAlg == 4 ==> entry.Some?))
            && (key.Some? && Algorithm(key.value, p) && entry.Some? ==>
                  Check(w, sct, entry) ==
                  if w.verifies(key.value, Vouched(p, entry.value), p.signature) then Verified else BadSignature)
  {
    hide PutSct, GetSct, SignedBytes, Vouched, SctBytes;
    SctWritten(p);
    SctExactly(sct, p);
    if entry.Some? {
      SignedWritten(p, entry.value);
    }
  }

  /** And of bytes that are no receipt. */
  lemma NoReceiptUnreadable(w: World, sct: bytes, entry: Option<Entry>)
    requires forall p :: !IsReceipt(sct, p)
    ensures Check(w, sct, entry) == Unreadable
  {
    hide PutSct, GetSct, SctBytes;
    if GetSct(sct).Some? {
      ReadsReceipt(sct);
    }
  }

  lemma ReadsReceipt(sct: bytes)
    requires GetSct(sct).Some?
    ensures IsReceipt(sct, GetSct(sct).value)
  {
    hide PutSct, GetSct, SctBytes;
    SctExactly(sct, GetSct(sct).value);
    SctWritten(GetSct(sct).value);
  }

  /** A receipt is verified exactly when a log the list names signed it for this entry. */
  lemma VerifiedExactly(w: World, sct: bytes, entry: Option<Entry>)
    ensures Check(w, sct, entry) == Verified <==> VouchedFor(w, sct, entry)
  {
    hide Check, IsReceipt, Vouched;
    if p :| IsReceipt(sct, p) {
      CheckMeans(w, sct, entry, p);
      forall q | IsReceipt(sct, q)
        ensures q == p
      {
        OneReading(sct, p, q);
      }
    } else {
      NoReceiptUnreadable(w, sct, entry);
    }
  }

  lemma OneReading(sct: bytes, p: Sct, q: Sct)
    requires IsReceipt(sct, p) && IsReceipt(sct, q)
    ensures p == q
  {
    hide PutSct, GetSct, SctBytes;
    SctWritten(p);
    SctWritten(q);
    SctExactly(sct, p);
    SctExactly(sct, q);
  }

  /** Where the certificate carries no list, or one that can be counted, everything is reported
      verified exactly when there are receipts and a listed log signed every one of them: those
      inside for the certificate as it was before them, those of the handshake for it as sent. */
  lemma VerdictVouches(w: World, carried: Option<LogList>, s: Scan, entries: seq<bytes>)
    requires if s.list.None? then entries == []
             else Listed(entries, 43) && s.list == Some(ListBytes(entries)) && AllVersion1(entries)
    ensures AllReceiptsVerified(FactsOf(w, carried, s)) <==>
              && s.chain && carried.Some? && (entries != [] || s.scts != [])
              && (forall sct :: sct in entries ==> VouchedFor(w, sct, s.embedded))
              && (forall sct :: sct in s.scts ==> VouchedFor(w, sct, s.sent))
  {
    hide Check, VouchedFor, PutList, FactsOf, AllReceiptsVerified, ListBytes, Listed, ListFits;
    if s.list.Some? {
      ListWritten(entries, 43);
      ListExactly(s.list.value, MIN_SERIALIZED_SCT, entries);
    }
    VerdictSound(w, carried, s);
    forall sct
      ensures Check(w, sct, s.embedded) == Verified <==> VouchedFor(w, sct, s.embedded)
      ensures Check(w, sct, s.sent) == Verified <==> VouchedFor(w, sct, s.sent)
    {
      VerifiedExactly(w, sct, s.embedded);
      VerifiedExactly(w, sct, s.sent);
    }
    EmbeddedVerified(w, s, entries);
    SentVerified(w, s);
    EveryConcat(CheckEmbedded(w, s.list, s.embedded), CheckAll(w, s.scts, s.sent));
  }

  ghost predicate NoneElse(statuses: seq<Status>) {
    forall i :: 0 <= i < |statuses| ==> statuses[i] == Verified
  }

  lemma EveryConcat(a: seq<Status>, b: seq<Status>)
    ensures EveryVerified(a + b) <==> (a != [] || b != []) && NoneElse(a) && NoneElse(b)
  {
    var c := a + b;
    if EveryVerified(c) {
      assert forall i :: 0 <= i < |a| ==> c[i] == a[i];
      assert forall i :: 0 <= i < |b| ==> c[|a| + i] == b[i];
    }
  }

  lemma SentVerified(w: World, s: Scan)
    ensures NoneElse(CheckAll(w, s.scts, s.sent)) <==> forall sct :: sct in s.scts ==> Check(w, sct, s.sent) == Verified
    ensures CheckAll(w, s.scts, s.sent) == [] <==> s.scts == []
  {
    hide Check;
    var sent := CheckAll(w, s.scts, s.sent);
    assert forall i :: 0 <= i < |sent| ==> sent[i] == Check(w, s.scts[i], s.sent);
  }

  lemma EmbeddedVerified(w: World, s: Scan, entries: seq<bytes>)
    requires if s.list.None? then entries == []
             else Split(s.list.value, MIN_SERIALIZED_SCT) == Some(entries)
    ensures var inside := CheckEmbedded(w, s.list, s.embedded);
            && (NoneElse(inside) <==> forall sct :: sct in entries ==> Check(w, sct, s.embedded) == Verified)
            && (inside == [] <==> entries == [])
  {
    if s.list.Some? {
      var inside := CheckEmbedded(w, s.list, s.embedded);
      ReadersAgree(s.list.value);
      if Split(s.list.value, MIN_SCT).Some? {
        hide Check;
        assert forall i :: 0 <= i < |inside| ==> inside[i] == Check(w, entries[i], s.embedded);
      } else {
        assert inside == [Unreadable];
        assert inside[0] == Unreadable;
        var i :| 0 <= i < |entries| && |entries[i]| < MIN_SCT;
        assert entries[i] in entries && Check(w, entries[i], s.embedded) == Unreadable;
      }
    }
  }

  // ---- What the columns count ----

  /** A receipt of a log the list does not name. */
  ghost predicate Unlisted(w: World, sct: bytes) {
    exists p :: IsReceipt(sct, p) && w.log(p.logId).None?
  }

  /** A receipt of a listed log whose signature is of the right kind and not over this entry. */
  ghost predicate Forged(w: World, sct: bytes, entry: Option<Entry>) {
    exists p :: IsReceipt(sct, p) && w.log(p.logId).Some? && entry.Some?
                && Algorithm(w.log(p.logId).value, p)
                && !w.verifies(w.log(p.logId).value, Vouched(p, entry.value), p.signature)
  }

  lemma StatusExactly(w: World, sct: bytes, entry: Option<Entry>)
    ensures Check(w, sct, entry) == UnknownLog <==> Unlisted(w, sct)
    ensures Check(w, sct, entry) == BadSignature <==> Forged(w, sct, entry)
  {
    hide Check, IsReceipt, Vouched;
    if p :| IsReceipt(sct, p) {
      CheckMeans(w, sct, entry, p);
      forall q | IsReceipt(sct, q)
        ensures q == p
      {
        OneReading(sct, p, q);
      }
    } else {
      NoReceiptUnreadable(w, sct, entry);
    }
  }

  /** How many receipts are so. */
  ghost function Many(scts: seq<bytes>, so: bytes -> bool): nat {
    if scts == [] then 0 else (if so(scts[0]) then 1 else 0) + Many(scts[1..], so)
  }

  lemma {:induction false} CountIsMany(w: World, scts: seq<bytes>, entry: Option<Entry>, status: Status,
                                       so: bytes -> bool)
    requires forall sct :: sct in scts ==> (Check(w, sct, entry) == status <==> so(sct))
    ensures Count(CheckAll(w, scts, entry), status) == Many(scts, so)
  {
    hide Check;
    if scts != [] {
      assert CheckAll(w, scts, entry)[1..] == CheckAll(w, scts[1..], entry);
      CountIsMany(w, scts[1..], entry, status, so);
    }
  }

  lemma CountBoth(w: World, entries: seq<bytes>, inside: Option<Entry>, scts: seq<bytes>, sent: Option<Entry>)
    ensures var all := CheckAll(w, entries, inside) + CheckAll(w, scts, sent);
            && Count(all, Verified) == Many(entries, sct => VouchedFor(w, sct, inside))
                                       + Many(scts, sct => VouchedFor(w, sct, sent))
            && Count(all, BadSignature) == Many(entries, sct => Forged(w, sct, inside))
                                           + Many(scts, sct => Forged(w, sct, sent))
            && Count(all, UnknownLog) == Many(entries, sct => Unlisted(w, sct)) + Many(scts, sct => Unlisted(w, sct))
  {
    hide Check, VouchedFor, Forged, Unlisted, Count, CheckAll, Many;
    forall sct, entry
      ensures Check(w, sct, entry) == Verified <==> VouchedFor(w, sct, entry)
      ensures Check(w, sct, entry) == UnknownLog <==> Unlisted(w, sct)
      ensures Check(w, sct, entry) == BadSignature <==> Forged(w, sct, entry)
    {
      VerifiedExactly(w, sct, entry);
      StatusExactly(w, sct, entry);
    }
    CountIsMany(w, entries, inside, Verified, sct => VouchedFor(w, sct, inside));
    CountIsMany(w, scts, sent, Verified, sct => VouchedFor(w, sct, sent));
    CountIsMany(w, entries, inside, BadSignature, sct => Forged(w, sct, inside));
    CountIsMany(w, scts, sent, BadSignature, sct => Forged(w, sct, sent));
    CountIsMany(w, entries, inside, UnknownLog, sct => Unlisted(w, sct));
    CountIsMany(w, scts, sent, UnknownLog, sct => Unlisted(w, sct));
    var a, b := CheckAll(w, entries, inside), CheckAll(w, scts, sent);
    CountConcat(a, b, Verified);
    CountConcat(a, b, BadSignature);
    CountConcat(a, b, UnknownLog);
  }

  lemma {:induction false} CountsAddUp(statuses: seq<Status>)
    ensures Count(statuses, Verified) + Count(statuses, BadSignature) + Count(statuses, UnknownLog)
            + Count(statuses, Unsupported) + Count(statuses, Unreadable) == |statuses|
  {
    if statuses != [] {
      CountsAddUp(statuses[1..]);
    }
  }

  /** Each column counts, over the receipts inside the certificate and those of the handshake, what its
      name says, and together they count every receipt. */
  lemma ColumnsMean(w: World, carried: LogList, s: Scan, entries: seq<bytes>)
    requires s.chain
    requires if s.list.None? then entries == [] else Listed(entries, 47) && s.list == Some(ListBytes(entries))
    ensures var f := FactsOf(w, Some(carried), s);
            && f.verified == Many(entries, sct => VouchedFor(w, sct, s.embedded))
                             + Many(s.scts, sct => VouchedFor(w, sct, s.sent))
            && f.badSignature == Many(entries, sct => Forged(w, sct, s.embedded))
                                 + Many(s.scts, sct => Forged(w, sct, s.sent))
            && f.unknownLog == Many(entries, sct => Unlisted(w, sct)) + Many(s.scts, sct => Unlisted(w, sct))
            && f.verified + f.badSignature + f.unknownLog + f.unreadable == |entries| + |s.scts|
            && f.inHandshake == |s.scts|
  {
    hide Check, VouchedFor, Forged, Unlisted, Count, Many, PutList, Split, ListFits, ListBytes, Listed;
    var inside := CheckEmbedded(w, s.list, s.embedded);
    if s.list.Some? {
      ListWritten(entries, 47);
      ListExactly(s.list.value, MIN_SCT, entries);
    }
    assert inside == CheckAll(w, entries, s.embedded);
    CountBoth(w, entries, s.embedded, s.scts, s.sent);
    CountsAddUp(Statuses(w, s));
  }
}
