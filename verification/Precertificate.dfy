/** What a log signed for an embedded receipt (internal/ctlogs/verify.go, section 3.2
    of RFC 6962): the TBSCertificate without the receipt list and the poison. */
module Precertificate {
  import opened Bytes
  import opened Options
  import opened Der

  const SCT_LIST_OID := [1, 3, 6, 1, 4, 1, 11129, 2, 4, 2]
  const POISON_OID := [1, 3, 6, 1, 4, 1, 11129, 2, 4, 3]

  predicate IsExtensions(e: Element) {
    e.tagClass == CONTEXT && e.tag == 3
  }

  /** Whether an extension is one the log did not sign; none if its identifier is unreadable. */
  function Removed(ext: Element): Option<bool> {
    match ReadOid(ext.content)
    case None => None
    case Some(oid) => Some(oid == SCT_LIST_OID || oid == POISON_OID)
  }

  function Join(a: Option<bytes>, b: Option<bytes>): Option<bytes> {
    if a.Some? && b.Some? then Some(a.value + b.value) else None
  }

  lemma JoinNothing(a: Option<bytes>)
    ensures Join(Some([]), a) == a && Join(a, Some([])) == a
  {
    if a.Some? {
      assert [] + a.value == a.value && a.value + [] == a.value;
    }
  }

  lemma JoinAssociative(a: Option<bytes>, b: Option<bytes>, c: Option<bytes>)
    ensures Join(Join(a, b), c) == Join(a, Join(b, c))
  {
    if a.Some? && b.Some? && c.Some? {
      assert (a.value + b.value) + c.value == a.value + (b.value + c.value);
    }
  }

  /** One extension's share of the rebuilt list. */
  function KeptOf(ext: Element): Option<bytes> {
    match Removed(ext)
    case None => None
    case Some(removed) => Some(if removed then [] else ext.full)
  }

  function Kept(b: bytes): Option<bytes> {
    if b == [] then Some([])
    else
      match Read(b)
      case None => None
      case Some((ext, rest)) =>
        ReadShrinks(b);
        Join(KeptOf(ext), Kept(rest))
  }

  function Extensions(kept: bytes): bytes {
    Wrap(CONTEXT, 3, Wrap(UNIVERSAL, TAG_SEQUENCE, kept))
  }

  /** One field's share of the rebuilt certificate. */
  function FieldOf(field: Element): Option<bytes> {
    if !IsExtensions(field) then Some(field.full)
    else
      match Read(field.content)
      case None => None
      case Some((list, tail)) =>
        if tail != [] then None
        else
          match Kept(list.content)
          case None => None
          case Some(kept) => Some(Extensions(kept))
  }

  function Fields(b: bytes): Option<bytes> {
    if b == [] then Some([])
    else
      match Read(b)
      case None => None
      case Some((field, rest)) =>
        ReadShrinks(b);
        Join(FieldOf(field), Fields(rest))
  }

  function Rebuilt(raw: bytes): Option<bytes> {
    match Read(raw)
    case None => None
    case Some((tbs, rest)) =>
      if rest != [] then None
      else
        match Fields(tbs.content)
        case None => None
        case Some(fields) => Some(Wrap(UNIVERSAL, TAG_SEQUENCE, fields))
  }

  method KeepExtensions(list: bytes) returns (kept: Option<bytes>)
    ensures kept == Kept(list)
  {
    var out: bytes := [];
    var rest := list;
    JoinNothing(Kept(list));
    while rest != []
      invariant Kept(list) == Join(Some(out), Kept(rest))
      decreases |rest|
    {
      ghost var before := rest;
      var r := Read(rest);
      if r.None? {
        return None;
      }
      ReadShrinks(rest);
      var ext := r.value.0;
      rest := r.value.1;
      var oid := ReadOid(ext.content);
      if oid.None? {
        return None;
      }
      assert Kept(before) == Join(KeptOf(ext), Kept(rest));
      JoinAssociative(Some(out), KeptOf(ext), Kept(rest));
      JoinNothing(Some(out));
      if oid.value == SCT_LIST_OID || oid.value == POISON_OID {
        continue;
      }
      out := out + ext.full;
    }
    JoinNothing(Some(out));
    return Some(out);
  }

  method PrecertificateTbs(raw: bytes) returns (tbs: Option<bytes>)
    ensures tbs == Rebuilt(raw)
  {
    var outer := Read(raw);
    if outer.None? || outer.value.1 != [] {
      return None;
    }
    var fields: bytes := [];
    var rest := outer.value.0.content;
    ghost var all := rest;
    JoinNothing(Fields(all));
    while rest != []
      invariant Fields(all) == Join(Some(fields), Fields(rest))
      decreases |rest|
    {
      ghost var before := rest;
      var r := Read(rest);
      if r.None? {
        return None;
      }
      ReadShrinks(rest);
      var field := r.value.0;
      rest := r.value.1;
      assert Fields(before) == Join(FieldOf(field), Fields(rest));
      JoinAssociative(Some(fields), FieldOf(field), Fields(rest));
      var share := field.full;
      if IsExtensions(field) {
        var list := Read(field.content);
        if list.None? || list.value.1 != [] {
          return None;
        }
        var kept := KeepExtensions(list.value.0.content);
        if kept.None? {
          return None;
        }
        share := Extensions(kept.value);
      }
      fields := fields + share;
    }
    JoinNothing(Some(fields));
    return Some(Wrap(UNIVERSAL, TAG_SEQUENCE, fields));
  }

  // ---- Element by element ----

  /** One whole element, alone. */
  ghost predicate Alone(b: bytes, e: Element) {
    Read(b) == Some((e, []))
  }

  function KeptAll(exts: seq<Element>): Option<bytes> {
    if exts == [] then Some([]) else Join(KeptOf(exts[0]), KeptAll(exts[1..]))
  }

  function FieldsAll(fields: seq<Element>): Option<bytes> {
    if fields == [] then Some([]) else Join(FieldOf(fields[0]), FieldsAll(fields[1..]))
  }

  lemma OneKept(x: bytes, ext: Element, b: bytes)
    requires Alone(x, ext)
    ensures Kept(x + b) == Join(KeptOf(ext), Kept(b))
  {
    ReadLocal(x, b);
    assert x == ext.full + [];
  }

  lemma OneField(f: bytes, field: Element, b: bytes)
    requires Alone(f, field)
    ensures Fields(f + b) == Join(FieldOf(field), Fields(b))
  {
    ReadLocal(f, b);
    assert f == field.full + [];
  }

  lemma {:induction false} KeptAfter(exts: seq<Element>, b: bytes)
    requires Canonical(exts)
    ensures Kept(Concat(exts) + b) == Join(KeptAll(exts), Kept(b))
  {
    hide Read, Kept, KeptOf;
    if exts == [] {
      assert Concat(exts) + b == b;
      JoinNothing(Kept(b));
    } else {
      var rest := Concat(exts[1..]) + b;
      assert Concat(exts) + b == exts[0].full + rest;
      KeptAfter(exts[1..], b);
      OneKept(exts[0].full, exts[0], rest);
      JoinAssociative(KeptOf(exts[0]), KeptAll(exts[1..]), Kept(b));
    }
  }

  lemma {:induction false} FieldsAfter(fields: seq<Element>, b: bytes)
    requires Canonical(fields)
    ensures Fields(Concat(fields) + b) == Join(FieldsAll(fields), Fields(b))
  {
    hide Read, Fields, FieldOf;
    if fields == [] {
      assert Concat(fields) + b == b;
      JoinNothing(Fields(b));
    } else {
      var rest := Concat(fields[1..]) + b;
      assert Concat(fields) + b == fields[0].full + rest;
      FieldsAfter(fields[1..], b);
      OneField(fields[0].full, fields[0], rest);
      JoinAssociative(FieldOf(fields[0]), FieldsAll(fields[1..]), Fields(b));
    }
  }

  // ---- Inserting a removed extension changes nothing ----

  lemma InsertedKept(a: seq<Element>, x: bytes, b: bytes, ext: Element)
    requires Canonical(a) && Alone(x, ext) && Removed(ext) == Some(true)
    ensures Kept(Concat(a) + (x + b)) == Kept(Concat(a) + b)
  {
    KeptAfter(a, x + b);
    KeptAfter(a, b);
    OneKept(x, ext, b);
    JoinNothing(Kept(b));
  }

  /** A TBSCertificate holding the fields `pre`, a field of extensions whose list is
      `exts`, and whatever `post` is. */
  ghost predicate Holding(raw: bytes, pre: seq<Element>, exts: bytes, post: bytes) {
    exists tbs, f, field, list ::
      && Alone(raw, tbs) && tbs.content == Concat(pre) + (f + post)
      && Alone(f, field) && IsExtensions(field)
      && Alone(field.content, list) && list.content == exts
  }

  /** What the three parts of such a certificate are rebuilt to. */
  function Parts(pre: seq<Element>, exts: bytes, post: bytes): Option<bytes> {
    Join(FieldsAll(pre), Join(if Kept(exts).Some? then Some(Extensions(Kept(exts).value)) else None, Fields(post)))
  }

  lemma ExtensionsField(field: Element, list: Element)
    requires IsExtensions(field) && Alone(field.content, list)
    ensures FieldOf(field) == if Kept(list.content).Some? then Some(Extensions(Kept(list.content).value)) else None
  {}

  lemma HoldingRebuilt(raw: bytes, pre: seq<Element>, exts: bytes, post: bytes)
    requires Canonical(pre) && Holding(raw, pre, exts, post)
    ensures Rebuilt(raw) ==
            match Parts(pre, exts, post)
            case None => None
            case Some(fields) => Some(Wrap(UNIVERSAL, TAG_SEQUENCE, fields))
  {
    var tbs, f, field, list :|
      && Alone(raw, tbs) && tbs.content == Concat(pre) + (f + post)
      && Alone(f, field) && IsExtensions(field)
      && Alone(field.content, list) && list.content == exts;
    FieldsAfter(pre, f + post);
    OneField(f, field, post);
    ExtensionsField(field, list);
  }

  lemma SameKeptSameRebuilt(one: bytes, other: bytes, pre: seq<Element>, exts: bytes, others: bytes, post: bytes)
    requires Canonical(pre) && Kept(exts) == Kept(others)
    requires Holding(one, pre, exts, post) && Holding(other, pre, others, post)
    ensures Rebuilt(one) == Rebuilt(other)
  {
    hide Holding, Read, Kept, Fields;
    HoldingRebuilt(one, pre, exts, post);
    HoldingRebuilt(other, pre, others, post);
  }

  /** Two certificates that differ only in a receipt list or a poison, anywhere among
      the extensions, are rebuilt to the same bytes. What stands after the difference
      may be anything, well formed or not. */
  lemma InsertionInvisible(with: bytes, without: bytes, pre: seq<Element>, a: seq<Element>, x: bytes, b: bytes,
                           post: bytes, ext: Element)
    requires Canonical(pre) && Canonical(a)
    requires Alone(x, ext) && Removed(ext) == Some(true)
    requires Holding(with, pre, Concat(a) + (x + b), post) && Holding(without, pre, Concat(a) + b, post)
    ensures Rebuilt(with) == Rebuilt(without)
  {
    hide Holding, Read, Kept, Fields;
    InsertedKept(a, x, b, ext);
    SameKeptSameRebuilt(with, without, pre, Concat(a) + (x + b), Concat(a) + b, post);
  }

  // ---- What survives, and that nothing else does ----

  /** The extensions the log signed, in order. */
  function Signed(exts: seq<Element>): seq<Element> {
    if exts == [] then []
    else (if Removed(exts[0]) == Some(false) then [exts[0]] else []) + Signed(exts[1..])
  }

  ghost predicate Readable(exts: seq<Element>) {
    forall ext :: ext in exts ==> Removed(ext).Some?
  }

  lemma {:induction false} KeptAreSigned(exts: seq<Element>)
    requires Canonical(exts)
    ensures KeptAll(exts).Some? <==> Readable(exts)
    ensures Readable(exts) ==> KeptAll(exts) == Some(Concat(Signed(exts)))
    ensures Canonical(Signed(exts)) && Readable(Signed(exts)) && Signed(Signed(exts)) == Signed(exts)
    ensures |Concat(Signed(exts))| <= |Concat(exts)|
    ensures forall ext :: ext in Signed(exts) ==> ext in exts && Removed(ext) == Some(false)
  {
    hide Read, ReadOid, Removed;
    if exts != [] {
      var rest := Signed(exts[1..]);
      KeptAreSigned(exts[1..]);
      if Removed(exts[0]) == Some(false) {
        assert Signed(exts)[1..] == rest;
      } else {
        assert Signed(exts) == rest;
        JoinNothing(KeptAll(exts[1..]));
      }
    }
  }

  /** A list of extensions is accepted when every one reads and names itself. */
  lemma {:induction false} KeptElements(b: bytes)
    requires Kept(b).Some?
    ensures Elements(b).Some?
    decreases |b|
  {
    hide Read, KeptOf;
    if b != [] {
      ReadShrinks(b);
      KeptElements(Read(b).value.1);
    }
  }

  lemma {:induction false} FieldsElements(b: bytes)
    requires Fields(b).Some?
    ensures Elements(b).Some?
    decreases |b|
  {
    hide Read, FieldOf;
    if b != [] {
      ReadShrinks(b);
      FieldsElements(Read(b).value.1);
    }
  }

  lemma KeptOfList(b: bytes)
    requires Kept(b).Some?
    ensures Elements(b).Some?
    ensures var exts := Elements(b).value;
            Canonical(exts) && Readable(exts) && Kept(b) == Some(Concat(Signed(exts))) && Concat(exts) == b
  {
    hide Read, KeptOf, Removed;
    KeptElements(b);
    ElementsConcat(b);
    var exts := Elements(b).value;
    KeptAfter(exts, []);
    assert Concat(exts) + [] == b && Kept([]) == Some([]);
    JoinNothing(KeptAll(exts));
    KeptAreSigned(exts);
  }

  /** The extensions a field wraps. */
  function ListOf(field: Element): seq<Element> {
    if Read(field.content).Some? && Elements(Read(field.content).value.0.content).Some?
    then Elements(Read(field.content).value.0.content).value
    else []
  }

  /** A field of the rebuilt certificate. */
  function RebuiltField(field: Element): Element {
    if IsExtensions(field)
    then Wrapped(CONTEXT, 3, Wrap(UNIVERSAL, TAG_SEQUENCE, Concat(Signed(ListOf(field)))))
    else field
  }

  /** A rebuilt field is no longer than the field, reads back, holds exactly the signed
      extensions, and is rebuilt to itself. */
  lemma FieldRebuilt(field: Element)
    requires Read(field.full) == Some((field, [])) && FieldOf(field).Some?
    ensures FieldOf(field) == Some(RebuiltField(field).full)
    ensures |RebuiltField(field).full| <= |field.full|
    ensures Read(RebuiltField(field).full) == Some((RebuiltField(field), []))
    ensures FieldOf(RebuiltField(field)) == Some(RebuiltField(field).full)
    ensures IsExtensions(field) ==> Readable(ListOf(field)) && ListOf(RebuiltField(field)) == Signed(ListOf(field))
  {
    if IsExtensions(field) {
      ExtensionsRebuilt(field);
    }
  }

  lemma ExtensionsRebuilt(field: Element)
    requires IsExtensions(field) && Read(field.full) == Some((field, [])) && FieldOf(field).Some?
    ensures var out := RebuiltField(field);
            && FieldOf(field) == Some(out.full) && |out.full| <= |field.full|
            && Read(out.full) == Some((out, [])) && FieldOf(out) == Some(out.full)
            && Readable(ListOf(field)) && ListOf(out) == Signed(ListOf(field))
  {
    hide Read, Kept, KeptOf, Removed, Elements, Wrap, Concat, Signed;
    var list := Read(field.content).value.0;
    var exts := ListOf(field);
    KeptOfList(list.content);
    var kept := Concat(Signed(exts));
    KeptAreSigned(exts);
    WrapNoLonger(UNIVERSAL, TAG_SEQUENCE, kept, field.content);
    var inner := Wrap(UNIVERSAL, TAG_SEQUENCE, kept);
    WrapNoLonger(CONTEXT, 3, inner, field.full);
    WrapReads(UNIVERSAL, TAG_SEQUENCE, kept, []);
    assert inner + [] == inner;
    WrapReads(CONTEXT, 3, inner, []);
    assert Wrap(CONTEXT, 3, inner) + [] == Wrap(CONTEXT, 3, inner);
    ConcatElements(Signed(exts));
    KeptAreSigned(Signed(exts));
    KeptAfter(Signed(exts), []);
    assert kept + [] == kept;
    KeptNothing();
    JoinNothing(KeptAll(Signed(exts)));
  }

  lemma KeptNothing()
    ensures Kept([]) == Some([]) && Fields([]) == Some([])
  {}

  function RebuiltFields(fields: seq<Element>): (r: seq<Element>)
    ensures |r| == |fields| && forall i :: 0 <= i < |fields| ==> r[i] == RebuiltField(fields[i])
  {
    seq(|fields|, i requires 0 <= i < |fields| => RebuiltField(fields[i]))
  }

  lemma {:induction false} AllRebuilt(fields: seq<Element>)
    requires Canonical(fields) && FieldsAll(fields).Some?
    ensures var out := RebuiltFields(fields);
            && FieldsAll(fields) == Some(Concat(out)) && |Concat(out)| <= |Concat(fields)|
            && Canonical(out) && FieldsAll(out) == Some(Concat(out))
  {
    hide Read, FieldOf, RebuiltField;
    if fields != [] {
      var out := RebuiltFields(fields);
      FieldRebuilt(fields[0]);
      AllRebuilt(fields[1..]);
      assert out[1..] == RebuiltFields(fields[1..]);
    }
  }

  lemma FieldsOfList(b: bytes)
    requires Fields(b).Some?
    ensures Elements(b).Some?
    ensures var fields := Elements(b).value;
            && Canonical(fields) && Concat(fields) == b
            && FieldsAll(fields) == Fields(b)
            && Fields(b) == Some(Concat(RebuiltFields(fields)))
  {
    hide Read, FieldOf, RebuiltField;
    FieldsElements(b);
    ElementsConcat(b);
    var fields := Elements(b).value;
    FieldsAfter(fields, []);
    KeptNothing();
    assert Concat(fields) + [] == b;
    JoinNothing(FieldsAll(fields));
    AllRebuilt(fields);
  }

  /** The rebuilt certificate is never longer than the one it came from. It reads back as
      one sequence with the same number of fields: each field but the extensions is the
      same bytes in the same place, and the extensions are those the log signed, in
      order and no others. Rebuilding it again changes nothing. */
  lemma Survives(raw: bytes)
    requires Rebuilt(raw).Some?
    ensures var out := Rebuilt(raw).value;
            && |out| <= |raw| && Rebuilt(out) == Some(out)
            && Read(raw).Some? && Read(out).Some?
            && var (tbs, copy) := (Read(raw).value.0, Read(out).value.0);
            && Elements(tbs.content).Some? && Elements(copy.content).Some?
            && var (fields, copies) := (Elements(tbs.content).value, Elements(copy.content).value);
            && |copies| == |fields|
            && forall i :: 0 <= i < |fields| ==>
                 if IsExtensions(fields[i])
                 then IsExtensions(copies[i]) && ListOf(copies[i]) == Signed(ListOf(fields[i]))
                 else copies[i] == fields[i]
  {
    hide Read, Fields, FieldOf, RebuiltField, Elements, Wrap, Concat, Signed, ListOf;
    var tbs := Read(raw).value.0;
    var b := tbs.content;
    FieldsOfList(b);
    var fields := Elements(b).value;
    var copies := RebuiltFields(fields);
    AllRebuilt(fields);
    var content := Concat(copies);
    WrapNoLonger(UNIVERSAL, TAG_SEQUENCE, content, raw);
    WrapReads(UNIVERSAL, TAG_SEQUENCE, content, []);
    var out := Wrap(UNIVERSAL, TAG_SEQUENCE, content);
    assert out + [] == out && tbs.full + [] == raw;
    ConcatElements(copies);
    FieldsAfter(copies, []);
    KeptNothing();
    assert content + [] == content;
    JoinNothing(FieldsAll(copies));
    forall i | 0 <= i < |fields|
      ensures if IsExtensions(fields[i])
              then IsExtensions(copies[i]) && ListOf(copies[i]) == Signed(ListOf(fields[i]))
              else copies[i] == fields[i]
    {
      FieldAccepted(fields, i);
      FieldRebuilt(fields[i]);
      RebuiltKind(fields[i]);
    }
  }

  lemma RebuiltKind(field: Element)
    ensures if IsExtensions(field) then IsExtensions(RebuiltField(field)) else RebuiltField(field) == field
  {}

  lemma {:induction false} FieldAccepted(fields: seq<Element>, i: nat)
    requires FieldsAll(fields).Some? && i < |fields|
    ensures FieldOf(fields[i]).Some?
  {
    if i > 0 {
      FieldAccepted(fields[1..], i - 1);
    }
  }

  // ---- What is accepted ----

  /** The bytes are whole elements end to end. */
  ghost predicate Spell(b: bytes, es: seq<Element>) {
    Canonical(es) && Concat(es) == b
  }

  /** A field of extensions is one list of extensions that name themselves, and nothing after it. */
  ghost predicate FieldSpells(field: Element) {
    IsExtensions(field) ==>
      exists list, exts :: Alone(field.content, list) && Spell(list.content, exts) && Readable(exts)
  }

  lemma FieldExactly(field: Element)
    ensures FieldOf(field).Some? <==> FieldSpells(field)
  {
    hide Read, Kept, Removed;
    if IsExtensions(field) && FieldOf(field).Some? {
      var list := Read(field.content).value.0;
      KeptOfList(list.content);
      assert Alone(field.content, list) && Spell(list.content, Elements(list.content).value);
    }
    if IsExtensions(field) && FieldSpells(field) {
      var list, exts :| Alone(field.content, list) && Spell(list.content, exts) && Readable(exts);
      KeptAfter(exts, []);
      KeptAreSigned(exts);
      KeptNothing();
      JoinNothing(KeptAll(exts));
      assert list.content + [] == list.content;
    }
  }

  lemma {:induction false} FieldsExactly(fields: seq<Element>)
    ensures FieldsAll(fields).Some? <==> forall f :: f in fields ==> FieldSpells(f)
  {
    hide FieldOf, FieldSpells;
    if fields != [] {
      FieldExactly(fields[0]);
      FieldsExactly(fields[1..]);
      assert forall f :: f in fields <==> f == fields[0] || f in fields[1..];
    }
  }

  /** A certificate is rebuilt exactly when it is one element and nothing after it, whose content is
      whole fields, each acceptable. */
  lemma AcceptedExactly(raw: bytes)
    ensures Rebuilt(raw).Some? <==>
            exists tbs, fields :: Alone(raw, tbs) && Spell(tbs.content, fields) && forall f :: f in fields ==>
                FieldSpells(f)
  {
    hide Read, Fields, FieldOf, FieldSpells, FieldsAll;
    if Rebuilt(raw).Some? {
      var tbs := Read(raw).value.0;
      FieldsOfList(tbs.content);
      var fields := Elements(tbs.content).value;
      FieldsExactly(fields);
      assert Alone(raw, tbs) && Spell(tbs.content, fields);
    }
    if tbs, fields :| Alone(raw, tbs) && Spell(tbs.content, fields) && forall f :: f in fields ==> FieldSpells(f) {
      FieldsExactly(fields);
      FieldsAfter(fields, []);
      KeptNothing();
      JoinNothing(FieldsAll(fields));
      assert tbs.content + [] == tbs.content;
    }
  }

  // ---- The bytes the log signed ----

  /** A TBSCertificate with the given extensions among its fields. */
  function Certificate(pre: seq<Element>, exts: seq<Element>, post: seq<Element>): bytes {
    Wrap(UNIVERSAL, TAG_SEQUENCE, Concat(pre) + (Extensions(Concat(exts)) + Concat(post)))
  }

  ghost predicate Ordinary(fields: seq<Element>) {
    Canonical(fields) && forall f :: f in fields ==> !IsExtensions(f)
  }

  lemma {:induction false} OrdinaryFields(fields: seq<Element>)
    requires Ordinary(fields)
    ensures FieldsAll(fields) == Some(Concat(fields)) && Fields(Concat(fields)) == Some(Concat(fields))
  {
    hide Read, Fields;
    if fields != [] {
      OrdinaryFields(fields[1..]);
    }
    FieldsAfter(fields, []);
    KeptNothing();
    assert Concat(fields) + [] == Concat(fields);
    JoinNothing(FieldsAll(fields));
  }

  lemma CertificateHolds(pre: seq<Element>, exts: seq<Element>, post: seq<Element>)
    requires |Certificate(pre, exts, post)| < LONGEST
    ensures Holding(Certificate(pre, exts, post), pre, Concat(exts), Concat(post))
  {
    hide Read, Concat, Wrap, Holding;
    var list := Concat(exts);
    var inner := Wrap(UNIVERSAL, TAG_SEQUENCE, list);
    var outer := Extensions(list);
    var content := Concat(pre) + (outer + Concat(post));
    var raw := Certificate(pre, exts, post);
    WrapLonger(UNIVERSAL, TAG_SEQUENCE, list);
    WrapLonger(CONTEXT, 3, inner);
    WrapLonger(UNIVERSAL, TAG_SEQUENCE, content);
    WrapReads(UNIVERSAL, TAG_SEQUENCE, list, []);
    WrapReads(CONTEXT, 3, inner, []);
    WrapReads(UNIVERSAL, TAG_SEQUENCE, content, []);
    assert inner + [] == inner && outer + [] == outer && raw + [] == raw;
    HoldsParts(pre, exts, post, content, outer, inner);
  }

  /** However many receipts and poisons were put among the extensions, and wherever, the
      rebuilt bytes are those of the certificate without them. */
  lemma LogSigned(pre: seq<Element>, exts: seq<Element>, post: seq<Element>)
    requires Ordinary(pre) && Ordinary(post) && Canonical(exts) && Readable(exts)
    requires |Certificate(pre, exts, post)| < LONGEST
    ensures Rebuilt(Certificate(pre, exts, post)) == Some(Certificate(pre, Signed(exts), post))
  {
    hide Read, Rebuilt, Kept, Fields, Concat, Signed, Wrap, Holding;
    CertificateHolds(pre, exts, post);
    OrdinaryFields(pre);
    OrdinaryFields(post);
    KeptAreSigned(exts);
    KeptAfter(exts, []);
    KeptNothing();
    assert Concat(exts) + [] == Concat(exts);
    JoinNothing(KeptAll(exts));
    HoldingRebuilt(Certificate(pre, exts, post), pre, Concat(exts), Concat(post));
  }

  lemma HoldsParts(pre: seq<Element>, exts: seq<Element>, post: seq<Element>, content: bytes, outer: bytes,
                   inner: bytes)
    requires inner == Wrap(UNIVERSAL, TAG_SEQUENCE, Concat(exts)) && outer == Wrap(CONTEXT, 3, inner)
    requires content == Concat(pre) + (outer + Concat(post))
    requires Alone(inner, Wrapped(UNIVERSAL, TAG_SEQUENCE, Concat(exts)))
    requires Alone(outer, Wrapped(CONTEXT, 3, inner))
    requires Alone(Certificate(pre, exts, post), Wrapped(UNIVERSAL, TAG_SEQUENCE, content))
    ensures Holding(Certificate(pre, exts, post), pre, Concat(exts), Concat(post))
  {
    hide Read, Concat, Certificate;
    var list := Wrapped(UNIVERSAL, TAG_SEQUENCE, Concat(exts));
    var field := Wrapped(CONTEXT, 3, inner);
    var tbs := Wrapped(UNIVERSAL, TAG_SEQUENCE, content);
    assert Alone(field.content, list) && list.content == Concat(exts);
    assert Alone(outer, field) && IsExtensions(field);
    assert tbs.content == Concat(pre) + (outer + Concat(post));
  }

  // ---- Which extensions are removed, byte for byte ----

  /** The identifier as it is written: its header, then its arcs. */
  function OidBytes(last: int): bytes
    requires 0 <= last < 128
  {
    [6, 10, 0x2b, 6, 1, 4, 1, 0xd6, 0x79, 2, 4, last]
  }

  /** A first arc that is read as `v` leaves the rest of the identifier. */
  lemma FirstArc(b: bytes, arcs: seq<int>)
    requires arcs != []
    ensures Arcs(b) == Some(arcs) <==>
              b != [] && Base128(b, 0, 0).Some? && Base128(b, 0, 0).value.0 == arcs[0]
                  && Arcs(Base128(b, 0, 0).value.1) == Some(arcs[1..])
  {
    if b != [] && Base128(b, 0, 0).Some? {
      var (v, rest) := Base128(b, 0, 0).value;
      if Arcs(rest).Some? {
        assert ([v] + Arcs(rest).value)[1..] == Arcs(rest).value;
      }
      assert [arcs[0]] + arcs[1..] == arcs;
    }
  }

  /** The arcs below 2^14 have one spelling each. */
  lemma {:induction false} ArcsSpelling(b: bytes, arcs: seq<int>)
    requires forall i :: 0 <= i < |arcs| ==> 0 <= arcs[i] < 16384
    ensures Arcs(b) == Some(arcs) <==> b == PutArcs(arcs)
    decreases |arcs|
  {
    if arcs == [] {
      if b != [] && Arcs(b).Some? {
        assert |Arcs(b).value| > 0;
      }
    } else {
      var v, rest := arcs[0], PutArcs(arcs[1..]);
      FirstArc(b, arcs);
      ArcFirst(b, v, rest);
      if b != [] && Base128(b, 0, 0).Some? {
        ArcsSpelling(Base128(b, 0, 0).value.1, arcs[1..]);
      }
    }
  }

  lemma ArcFirst(b: bytes, v: int, rest: bytes)
    requires 0 <= v < 16384
    ensures Base128(b, 0, 0) == Some((v, rest)) <==> b == PutArc(v) + rest
  {
    if v < 128 {
      SmallArc(b, v);
      assert b == [v] + rest <==> b != [] && b[0] == v && b[1..] == rest;
    } else {
      TwoByteArc(b, v);
      assert b == PutArc(v) + rest <==> |b| >= 2 && b[0] == 0x80 + v / 128 && b[1] == v % 128 && b[2..] == rest;
    }
  }

  function PutArc(v: int): bytes
    requires 0 <= v < 16384
  {
    if v < 128 then [v] else [0x80 + v / 128, v % 128]
  }

  function PutArcs(arcs: seq<int>): bytes
    requires forall i :: 0 <= i < |arcs| ==> 0 <= arcs[i] < 16384
  {
    if arcs == [] then [] else PutArc(arcs[0]) + PutArcs(arcs[1..])
  }

  /** An extension is removed exactly when its content starts with one of two identifiers,
      written the one way DER writes it. */
  lemma RemovedBytes(ext: Element)
    ensures Removed(ext) == Some(true) <==>
              |ext.content| >= 12 && (ext.content[..12] == OidBytes(2) || ext.content[..12] == OidBytes(3))
  {
    OidSpelling(ext.content, 2);
    OidSpelling(ext.content, 3);
  }

  const ARCS: seq<int> := [43, 6, 1, 4, 1, 11129, 2, 4]

  lemma PutTail(last: int)
    requires 0 <= last < 128
    ensures PutArcs([11129, 2, 4, last]) == [0xd6, 0x79, 2, 4, last]
  {
    hide PutArcs;
    PutMore(last, []);
    PutMore(4, [last]);
    PutMore(2, [4, last]);
    PutMore(11129, [2, 4, last]);
    assert [last] + [] == [last] && [4] + [last] == [4, last] && [2] + [4, last] == [2, 4, last];
    assert [11129] + [2, 4, last] == [11129, 2, 4, last];
  }

  lemma PutOidArcs(last: int)
    requires 0 <= last < 128
    ensures PutArcs(ARCS + [last]) == OidBytes(last)[2..]
  {
    hide PutArcs;
    var t: seq<int> := [11129, 2, 4, last];
    PutTail(last);
    PutMore(1, t);
    PutMore(4, [1] + t);
    PutMore(1, [4] + ([1] + t));
    PutMore(6, [1] + ([4] + ([1] + t)));
    PutMore(43, [6] + ([1] + ([4] + ([1] + t))));
    assert ARCS + [last] == [43] + ([6] + ([1] + ([4] + ([1] + t))));
    assert OidBytes(last)[2..] == [43] + ([6] + ([1] + ([4] + ([1] + [0xd6, 0x79, 2, 4, last]))));
  }

  lemma PutMore(v: int, arcs: seq<int>)
    requires 0 <= v < 16384 && forall i :: 0 <= i < |arcs| ==> 0 <= arcs[i] < 16384
    ensures PutArcs([v] + arcs) == PutArc(v) + PutArcs(arcs) && PutArcs([]) == []
  {
    assert ([v] + arcs)[1..] == arcs;
  }

  lemma OidSpelling(b: bytes, last: int)
    requires last == 2 || last == 3
    ensures ReadOid(b) == Some([1, 3, 6, 1, 4, 1, 11129, 2, 4, last]) <==> |b| >= 12 && b[..12] == OidBytes(last)
  {
    hide Arcs, PutArcs;
    PutOidArcs(last);
    if Read(b).Some? {
      var e := Read(b).value.0;
      ArcsSpelling(e.content, ARCS + [last]);
      if Arcs(e.content).Some? && Arcs(e.content).value != [] {
        OidFromArcs(Arcs(e.content).value, last);
      }
    }
    OidElement(b, last);
  }

  lemma OidFromArcs(arcs: seq<int>, last: int)
    requires arcs != []
    ensures var oid := if arcs[0] < 80 then [arcs[0] / 40, arcs[0] % 40] + arcs[1..] else [2, arcs[0] - 80] + arcs[1..];
            oid == [1, 3, 6, 1, 4, 1, 11129, 2, 4, last] <==> arcs == ARCS + [last]
  {
    var tail := [6, 1, 4, 1, 11129, 2, 4, last];
    assert [1, 3, 6, 1, 4, 1, 11129, 2, 4, last] == [1, 3] + tail;
    assert ARCS + [last] == [43] + tail;
    assert arcs == [43] + tail <==> arcs[0] == 43 && arcs[1..] == tail by {
      assert arcs == [arcs[0]] + arcs[1..];
    }
    var head := if arcs[0] < 80 then [arcs[0] / 40, arcs[0] % 40] else [2, arcs[0] - 80];
    assert (head + arcs[1..])[..2] == head && (head + arcs[1..])[2..] == arcs[1..];
    assert ([1, 3] + tail)[..2] == [1, 3] && ([1, 3] + tail)[2..] == tail;
    assert head == [1, 3] <==> arcs[0] == 43;
  }

  /** A universal, primitive object identifier of ten bytes is written one way. */
  lemma OidElement(b: bytes, last: int)
    requires 0 <= last < 128
    ensures |b| >= 12 && b[..12] == OidBytes(last) <==>
              && Read(b).Some?
              && var e := Read(b).value.0;
              e.tagClass == UNIVERSAL && e.tag == TAG_OID && !e.compound && e.content == OidBytes(last)[2..]
  {
    if Read(b).Some? {
      var e := Read(b).value.0;
      if e.tagClass == UNIVERSAL && e.tag == TAG_OID && !e.compound && |e.content| == 10 {
        TenBytes(b);
        assert b[..12] == [6, 10] + e.content;
      }
    }
    if |b| >= 12 && b[..12] == OidBytes(last) {
      assert b[0] == 6 && b[1] == 10;
      assert b[1..][1..] == b[2..];
      assert ReadHeader(b) == Some((Header(UNIVERSAL, false, TAG_OID, 10), b[2..]));
      assert b[2..][..10] == b[..12][2..];
    }
  }

  /** Only one header announces a universal, primitive identifier of ten bytes. */
  lemma TenBytes(b: bytes)
    requires Read(b).Some?
    requires var e := Read(b).value.0;
             e.tagClass == UNIVERSAL && e.tag == TAG_OID && !e.compound && |e.content| == 10
    ensures |b| >= 12 && b[0] == 6 && b[1] == 10 && b[2..12] == Read(b).value.0.content
  {
    var more := ReadTag(b).value.1;
    assert b[0] % 32 == 6;
    assert more == b[1..];
    LengthMinimal(more);
    assert more[0] < 0x80;
    assert more[1..] == b[2..];
  }
}
