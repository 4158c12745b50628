/** The rebuilt TBSCertificate in plain bytes (internal/ctlogs/verify.go, section 3.2 of RFC 6962).

    An element here is its first byte, a length and its content, with the numbers of X.690 and
    RFC 5280 written out: 0x30 a sequence, 0xA3 the field of extensions, 6 an identifier.
 */
module PrecertificateBytes {
  import opened Bytes
  import opened Options
  import opened Der
  import opened Precertificate

  datatype Item = Item(first: byte, content: bytes)

  function Written(items: seq<Item>): bytes {
    if items == [] then [] else ElementBytes(items[0].first, items[0].content) + Written(items[1..])
  }

  /** An extension: the arcs of its identifier as they are written, the first two in one, and what
      follows the identifier. */
  datatype Extension = Extension(first: byte, arcs: seq<nat>, rest: bytes)

  function ArcBytes(arcs: seq<nat>): bytes {
    if arcs == [] then [] else PutBase128(arcs[0]) + ArcBytes(arcs[1..])
  }

  function AsItem(ext: Extension): Item {
    Item(ext.first, ElementBytes(6, ArcBytes(ext.arcs)) + ext.rest)
  }

  function AsItems(exts: seq<Extension>): (r: seq<Item>)
    ensures |r| == |exts|
  {
    if exts == [] then [] else [AsItem(exts[0])] + AsItems(exts[1..])
  }

  /** The extensions but the receipt list, 1.3.6.1.4.1.11129.2.4.2, and the poison, which ends in 3. */
  function LogSaw(exts: seq<Extension>): seq<Extension> {
    if exts == [] then []
    else
      (if exts[0].arcs == [43, 6, 1, 4, 1, 11129, 2, 4, 2] || exts[0].arcs == [43, 6, 1, 4, 1, 11129, 2, 4, 3] then []
       else [exts[0]]) + LogSaw(exts[1..])
  }

  /** A certificate whose three headers are given. */
  function Tbs(outer: byte, field: byte, list: byte, pre: seq<Item>, exts: seq<Extension>, post: seq<Item>): bytes {
    ElementBytes(outer,
        Written(pre) + (ElementBytes(field, ElementBytes(list, Written(AsItems(exts)))) + Written(post)))
  }

  /** A first byte that announces a one-byte tag. */
  predicate LowTag(first: byte) {
    first % 32 != 31
  }

  predicate Short(items: seq<Item>) {
    forall item :: item in items ==> LowTag(item.first) && |item.content| < LONGEST
  }

  predicate OtherFields(items: seq<Item>) {
    Short(items) && forall item :: item in items ==> item.first != 0x83 && item.first != 0xA3
  }

  predicate Identified(exts: seq<Extension>) {
    forall ext :: ext in exts ==>
      LowTag(ext.first) && ext.arcs != [] && forall i :: 0 <= i < |ext.arcs| ==> ext.arcs[i] < 0x8000_0000
  }

  /** A field is taken for the extensions exactly when it starts with 0x83 or 0xA3. */
  lemma ExtensionsByte(b: bytes)
    requires Read(b).Some?
    ensures b != [] && (IsExtensions(Read(b).value.0) <==> b[0] == 0x83 || b[0] == 0xA3)
  {
    hide Base128, ReadLength;
  }

  // ---- The same elements as values ----

  function Elems(items: seq<Item>): (r: seq<Element>)
    ensures |r| == |items|
  {
    if items == [] then [] else [AsElement(items[0].first, items[0].content)] + Elems(items[1..])
  }

  lemma OneItem(item: Item)
    requires LowTag(item.first) && |item.content| < LONGEST
    ensures Alone(ElementBytes(item.first, item.content), AsElement(item.first, item.content))
  {
    hide Read, ElementBytes;
    BytesRead(item.first, item.content, []);
    assert ElementBytes(item.first, item.content) + [] == ElementBytes(item.first, item.content);
  }

  lemma {:induction false} ElemsOf(items: seq<Item>)
    requires Short(items)
    ensures Canonical(Elems(items)) && Concat(Elems(items)) == Written(items)
    ensures OtherFields(items) ==> Ordinary(Elems(items))
  {
    hide Read, ElementBytes;
    if items != [] {
      OneItem(items[0]);
      ElemsOf(items[1..]);
      assert Elems(items)[1..] == Elems(items[1..]);
    }
  }

  lemma {:induction false} ArcsRead(arcs: seq<nat>)
    requires forall i :: 0 <= i < |arcs| ==> arcs[i] < 0x8000_0000
    ensures Arcs(ArcBytes(arcs)) == Some(arcs)
  {
    hide Base128;
    if arcs != [] {
      var rest := ArcBytes(arcs[1..]);
      ArcsRead(arcs[1..]);
      Base128Reads(arcs[0], rest);
      assert ArcBytes(arcs) == PutBase128(arcs[0]) + rest;
      FirstArc(ArcBytes(arcs), arcs);
    }
  }

  /** An extension written this way names itself, and is removed when its identifier is one of two. */
  lemma RemovedArcs(ext: Extension)
    requires Identified([ext]) && |ArcBytes(ext.arcs)| < LONGEST
    ensures ext in [ext]
    ensures Removed(AsElement(ext.first, AsItem(ext).content)) == Some(LogSaw([ext]) == [])
  {
    hide Arcs, ArcBytes, ElementBytes, Read, ReadOid;
    assert ext in [ext];
    var oid := ArcBytes(ext.arcs);
    ArcsRead(ext.arcs);
    BytesRead(6, oid, ext.rest);
    OidRead(AsItem(ext).content, oid, ext.arcs, ext.rest);
    OidFromArcs(ext.arcs, 2);
    OidFromArcs(ext.arcs, 3);
    assert LogSaw([]) == [];
  }

  lemma OidRead(b: bytes, oid: bytes, arcs: seq<int>, rest: bytes)
    requires Read(b) == Some((AsElement(6, oid), rest)) && Arcs(oid) == Some(arcs) && arcs != []
    ensures ReadOid(b) == Some(if arcs[0] < 80 then [arcs[0] / 40, arcs[0] % 40] + arcs[1..]
                               else [2, arcs[0] - 80] + arcs[1..])
  {
    hide Read;
    assert oid != [];
  }

  lemma {:induction false} SignedExtensions(exts: seq<Extension>)
    requires Identified(exts) && |Written(AsItems(exts))| < LONGEST
    ensures Short(AsItems(exts)) && Readable(Elems(AsItems(exts)))
    ensures Signed(Elems(AsItems(exts))) == Elems(AsItems(LogSaw(exts)))
    ensures Short(AsItems(LogSaw(exts)))
  {
    hide Removed, ElementBytes, ArcBytes;
    if exts != [] {
      var ext, item := exts[0], AsItem(exts[0]);
      var all, more := Elems(AsItems(exts)), Elems(AsItems(exts[1..]));
      assert AsItems(exts)[1..] == AsItems(exts[1..]);
      ContentShorter(item.first, item.content);
      ContentShorter(6, ArcBytes(ext.arcs));
      SignedExtensions(exts[1..]);
      RemovedArcs(ext);
      assert all[0] == AsElement(ext.first, item.content) && all[1..] == more;
      var saw := LogSaw(exts);
      if LogSaw([ext]) == [] {
        assert saw == LogSaw(exts[1..]);
      } else {
        assert saw == [ext] + LogSaw(exts[1..]);
        assert saw[1..] == LogSaw(exts[1..]) && AsItems(saw)[1..] == AsItems(saw[1..]);
      }
    }
  }

  lemma ContentShorter(first: byte, content: bytes)
    ensures |content| < |ElementBytes(first, content)|
  {}

  // ---- The rebuilt bytes ----

  lemma TbsHolds(outer: byte, field: byte, list: byte, pre: seq<Item>, exts: bytes, post: bytes)
    requires Short(pre) && LowTag(outer) && LowTag(list) && (field == 0x83 || field == 0xA3)
    requires |ElementBytes(outer, Written(pre) + (ElementBytes(field, ElementBytes(list, exts)) + post))| < LONGEST
    ensures Holding(ElementBytes(outer, Written(pre) + (ElementBytes(field, ElementBytes(list, exts)) + post)),
                    Elems(pre), exts, post)
  {
    hide Read, ElementBytes, Written;
    var inner := ElementBytes(list, exts);
    var f := ElementBytes(field, inner);
    var content := Written(pre) + (f + post);
    ContentShorter(list, exts);
    ContentShorter(field, inner);
    ContentShorter(outer, content);
    OneItem(Item(list, exts));
    OneItem(Item(field, inner));
    OneItem(Item(outer, content));
    ElemsOf(pre);
    var tbs := AsElement(outer, content);
    assert Alone(ElementBytes(outer, content), tbs) && tbs.content == Concat(Elems(pre)) + (f + post);
    assert Alone(f, AsElement(field, inner)) && IsExtensions(AsElement(field, inner));
    assert Alone(AsElement(field, inner).content, AsElement(list, exts));
  }

  /** Whatever the three headers were, a certificate is rebuilt to the plain DER of the one without its
      receipts and poisons: a sequence, its other fields as they were and where they were, and the other
      extensions in order in the field 0xA3. */
  lemma RebuiltBytes(outer: byte, field: byte, list: byte, pre: seq<Item>, exts: seq<Extension>, post: seq<Item>)
    requires LowTag(outer) && LowTag(list) && (field == 0x83 || field == 0xA3)
    requires OtherFields(pre) && OtherFields(post) && Identified(exts)
    requires |Tbs(outer, field, list, pre, exts, post)| < LONGEST
    ensures Rebuilt(Tbs(outer, field, list, pre, exts, post)) ==
            Some(Tbs(0x30, 0xA3, 0x30, pre, LogSaw(exts), post))
  {
    hide Rebuilt, Read, Kept, Fields, Holding, Wrap, ElementBytes, Signed, Concat, Elems, Written;
    var bytes := Written(AsItems(exts));
    ContentsShorter(outer, field, list, Written(pre), bytes, Written(post));
    TbsHolds(outer, field, list, pre, bytes, Written(post));
    SignedExtensions(exts);
    ElemsOf(pre);
    ElemsOf(post);
    ElemsOf(AsItems(exts));
    ElemsOf(AsItems(LogSaw(exts)));
    var es := Elems(AsItems(exts));
    KeptAreSigned(es);
    KeptAfter(es, []);
    KeptNothing();
    JoinNothing(KeptAll(es));
    assert bytes + [] == bytes;
    OrdinaryFields(Elems(pre));
    OrdinaryFields(Elems(post));
    HoldingRebuilt(Tbs(outer, field, list, pre, exts, post), Elems(pre), bytes, Written(post));
    var kept := Written(AsItems(LogSaw(exts)));
    assert |kept| <= |bytes|;
    ContentsWritten(Written(pre), kept, Written(post), bytes, outer, field, list);
  }

  lemma ContentsShorter(outer: byte, field: byte, list: byte, pre: bytes, exts: bytes, post: bytes)
    ensures |exts| < |ElementBytes(outer, pre + (ElementBytes(field, ElementBytes(list, exts)) + post))|
  {
    hide ElementBytes;
    ContentShorter(list, exts);
    ContentShorter(field, ElementBytes(list, exts));
    ContentShorter(outer, pre + (ElementBytes(field, ElementBytes(list, exts)) + post));
  }

  /** A shorter list has a shorter certificate, and no header of it needs a longer length. */
  lemma ContentsWritten(pre: bytes, kept: bytes, post: bytes, exts: bytes, outer: byte, field: byte, list: byte)
    requires |kept| <= |exts|
    requires |ElementBytes(outer, pre + (ElementBytes(field, ElementBytes(list, exts)) + post))| < LONGEST
    ensures Wrap(UNIVERSAL, TAG_SEQUENCE, pre + (Extensions(kept) + post)) ==
            ElementBytes(0x30, pre + (ElementBytes(0xA3, ElementBytes(0x30, kept)) + post))
  {
    hide ElementBytes, Wrap;
    var whole := pre + (ElementBytes(field, ElementBytes(list, exts)) + post);
    ContentShorter(list, exts);
    ContentShorter(field, ElementBytes(list, exts));
    ContentShorter(outer, whole);
    SameSize(0x30, list, kept, exts);
    WrapWritten(UNIVERSAL, TAG_SEQUENCE, kept);
    var inner := ElementBytes(0x30, kept);
    SameSize(0xA3, field, inner, ElementBytes(list, exts));
    WrapWritten(CONTEXT, 3, inner);
    WrapWritten(UNIVERSAL, TAG_SEQUENCE, pre + (ElementBytes(0xA3, inner) + post));
  }

  lemma SameSize(first: byte, other: byte, a: bytes, b: bytes)
    requires |a| <= |b| < LONGEST
    ensures |ElementBytes(first, a)| <= |ElementBytes(other, b)|
  {}
}
