/** An answer section written out and read back (internal/dnsclient/parse.go; sections 4.1.3
    and 4.1.4 of RFC 1035). */
module AnswerText {
  import opened Bytes
  import opened Options
  import opened WireName
  import opened AnswerChain

  /** An owner: labels, and either the root or a pointer to where the rest of the name stands. */
  datatype Owner = InFull(labels: seq<bytes>) | Pointing(labels: seq<bytes>, to: nat, suffix: seq<bytes>)

  datatype Written = Written(owner: Owner, rrType: int, rrClass: int, ttl: bytes, data: bytes)

  predicate Writable(w: Written) {
    && Labels(w.owner.labels) && (w.owner.Pointing? ==> w.owner.to < 16384 && Labels(w.owner.suffix))
    && 0 <= w.rrType < 65536 && 0 <= w.rrClass < 65536 && |w.ttl| == 4 && |w.data| < 65536
  }

  function OwnerBytes(w: Written): bytes
    requires Writable(w)
  {
    match w.owner
    case InFull(labels) => PutLabels(labels) + [0]
    case Pointing(labels, to, _) => PutPointer(labels, to)
  }

  function HeadBytes(w: Written): (b: bytes)
    requires Writable(w)
    ensures |b| == 10
  {
    [w.rrType / 256, w.rrType % 256, w.rrClass / 256, w.rrClass % 256] + w.ttl + [|w.data| / 256, |w.data| % 256]
  }

  function RecordBytes(w: Written): bytes
    requires Writable(w)
  {
    OwnerBytes(w) + HeadBytes(w) + w.data
  }

  /** The whole name an owner stands for. */
  function Whole(w: Written): seq<bytes> {
    match w.owner
    case InFull(labels) => labels
    case Pointing(labels, _, suffix) => labels + suffix
  }

  /** A record as it stands in a message: a pointer goes back to a name written in full, and
      no name is too long. */
  ghost predicate Placed(raw: bytes, at: nat, w: Written) {
    && Writable(w) && Stands(raw, at, RecordBytes(w))
    && (w.owner.Pointing? ==> w.owner.to < at && Stands(raw, w.owner.to, Wire(w.owner.suffix)))
    && Labels(Whole(w)) && |PutLabels(Whole(w))| <= 255
  }

  /** What a record should read as. */
  function AsRecord(at: nat, w: Written): Record
    requires Writable(w) && Labels(FoldedLabels(Whole(w)))
  {
    Record(Wire(FoldedLabels(Whole(w))), w.rrType, w.data, at + |OwnerBytes(w)| + 10)
  }

  lemma OwnerReads(raw: bytes, at: nat, w: Written)
    requires Placed(raw, at, w)
    ensures Labels(FoldedLabels(Whole(w)))
    ensures Name(raw, at) == Some((Wire(FoldedLabels(Whole(w))), at + |OwnerBytes(w)|))
  {
    hide HeadBytes, Name;
    assert RecordBytes(w) == OwnerBytes(w) + (HeadBytes(w) + w.data);
    StandsParts(raw, at, OwnerBytes(w), HeadBytes(w) + w.data);
    match w.owner
    case InFull(labels) => FullName(raw, at, labels);
    case Pointing(labels, to, suffix) => CompressedName(raw, at, labels, to, suffix);
  }

  lemma FoldedWhole(raw: bytes, at: nat, w: Written)
    requires Placed(raw, at, w)
    ensures Labels(FoldedLabels(Whole(w)))
  {
    OwnerReads(raw, at, w);
  }

  lemma FullName(raw: bytes, at: nat, labels: seq<bytes>)
    requires Labels(labels) && Stands(raw, at, Wire(labels)) && |PutLabels(labels)| <= 255
    ensures Labels(FoldedLabels(labels))
    ensures Name(raw, at) == Some((Wire(FoldedLabels(labels)), at + |Wire(labels)|))
  {
    hide Wire, PutLabels, Expand, After;
    FoldedWire(labels);
    ExpandWire(raw, at, labels, 0);
    AfterWire(raw, at, labels);
  }

  lemma HeadReads(raw: bytes, at: nat, w: Written)
    requires Writable(w) && Stands(raw, at, HeadBytes(w) + w.data)
    ensures at + 10 + |w.data| <= |raw| && U16(raw, at) == w.rrType && U16(raw, at + 8) == |w.data|
    ensures raw[at + 10..at + 10 + |w.data|] == w.data
  {
    var head := HeadBytes(w);
    StandsParts(raw, at, head, w.data);
    assert forall i :: 0 <= i < 10 ==> raw[at + i] == raw[at..at + 10][i] == head[i];
    assert head[8] == |w.data| / 256 && head[9] == |w.data| % 256;
  }

  /** One record reads back: its owner whole and folded, its type, its data and where the data
      stands, and the next record after it. */
  lemma RecordReads(raw: bytes, at: nat, w: Written)
    requires Placed(raw, at, w)
    ensures Labels(FoldedLabels(Whole(w)))
    ensures RecordAt(raw, at) == Some((AsRecord(at, w), at + |RecordBytes(w)|))
  {
    hide Name, HeadBytes, OwnerBytes;
    OwnerReads(raw, at, w);
    assert RecordBytes(w) == OwnerBytes(w) + (HeadBytes(w) + w.data);
    StandsParts(raw, at, OwnerBytes(w), HeadBytes(w) + w.data);
    HeadReads(raw, at + |OwnerBytes(w)|, w);
  }

  /** A run of records, one after another. */
  ghost predicate AllPlaced(raw: bytes, at: nat, ws: seq<Written>)
    decreases ws
  {
    ws == [] || (Placed(raw, at, ws[0]) && AllPlaced(raw, at + |RecordBytes(ws[0])|, ws[1..]))
  }

  ghost function AsRecords(raw: bytes, at: nat, ws: seq<Written>): seq<Record>
    requires AllPlaced(raw, at, ws)
    decreases ws
  {
    if ws == [] then []
    else
      FoldedWhole(raw, at, ws[0]);
      [AsRecord(at, ws[0])] + AsRecords(raw, at + |RecordBytes(ws[0])|, ws[1..])
  }

  /** A whole section reads back. */
  lemma {:induction false} SectionReads(raw: bytes, at: nat, ws: seq<Written>)
    requires AllPlaced(raw, at, ws)
    ensures Section(raw, at, |ws|) == Some(AsRecords(raw, at, ws))
    decreases |ws|
  {
    hide RecordBytes, AsRecord, RecordAt;
    if ws != [] {
      RecordReads(raw, at, ws[0]);
      SectionReads(raw, at + |RecordBytes(ws[0])|, ws[1..]);
    }
  }
}
