/** Reading and writing DER elements, as Go's encoding/asn1 does with a RawValue.

    A reader takes what it needs from the front of the bytes and hands back the rest.
 */
module Der {
  import opened Bytes
  import opened Options

  const UNIVERSAL := 0
  const CONTEXT := 2
  const TAG_OID := 6
  const TAG_SEQUENCE := 16

  datatype Element = Element(tagClass: int, compound: bool, tag: int, content: bytes, full: bytes)

  datatype Header = Header(tagClass: int, compound: bool, tag: int, length: int)

  /** A base-128 number of at most five bytes and 31 bits, with no leading zero. */
  function Base128(b: bytes, shifted: nat, acc: int): Option<(int, bytes)> {
    if b == [] || shifted == 5 || (shifted == 0 && b[0] == 0x80) then None
    else
      var v := acc * 128 + b[0] % 128;
      if b[0] >= 0x80 then Base128(b[1..], shifted + 1, v)
      else if v > 0x7fff_ffff then None
      else Some((v, b[1..]))
  }

  /** A length of `n` bytes, most significant first and with no leading zero. */
  function LongLength(b: bytes, n: nat, acc: int): Option<(int, bytes)> {
    if n == 0 then Some((acc, b))
    else if b == [] || acc >= 0x80_0000 || acc * 256 + b[0] == 0 then None
    else LongLength(b[1..], n - 1, acc * 256 + b[0])
  }

  function ReadLength(b: bytes): Option<(int, bytes)> {
    if b == [] then None
    else if b[0] < 0x80 then Some((b[0], b[1..]))
    else if b[0] == 0x80 then None
    else
      match LongLength(b[1..], b[0] - 0x80, 0)
      case None => None
      case Some((n, rest)) => if n < 0x80 then None else Some((n, rest))
  }

  function ReadTag(b: bytes): Option<(int, bytes)>
    requires b != []
  {
    if b[0] % 32 < 31 then Some((b[0] % 32, b[1..]))
    else
      match Base128(b[1..], 0, 0)
      case None => None
      case Some((tag, rest)) => if tag < 31 then None else Some((tag, rest))
  }

  function ReadHeader(b: bytes): Option<(Header, bytes)> {
    if b == [] then None
    else
      match ReadTag(b)
      case None => None
      case Some((tag, more)) =>
        match ReadLength(more)
        case None => None
        case Some((length, rest)) => Some((Header(b[0] / 64, b[0] / 32 % 2 == 1, tag, length), rest))
  }

  function Read(b: bytes): (r: Option<(Element, bytes)>)
    ensures r.Some? ==> r.value.0.full + r.value.1 == b
  {
    match ReadHeader(b)
    case None => None
    case Some((h, rest)) =>
      if !(0 <= h.length <= |rest|) then None
      else
        HeaderTail(b);
        Some((Element(h.tagClass, h.compound, h.tag, rest[..h.length], b[..|b| - |rest| + h.length]), rest[h.length..]))
  }

  // ---- Reading takes a prefix and is blind to what follows it ----

  lemma {:induction false} Base128Local(b: bytes, shifted: nat, acc: int, t: bytes)
    requires Base128(b, shifted, acc).Some?
    ensures var (v, rest) := Base128(b, shifted, acc).value;
            Base128(b + t, shifted, acc) == Some((v, rest + t)) && |rest| < |b| && rest == b[|b| - |rest|..]
  {
    assert (b + t)[1..] == b[1..] + t;
    if b[0] >= 0x80 {
      Base128Local(b[1..], shifted + 1, acc * 128 + b[0] % 128, t);
    }
  }

  lemma {:induction false} LongLengthLocal(b: bytes, n: nat, acc: int, t: bytes)
    requires LongLength(b, n, acc).Some?
    ensures var (v, rest) := LongLength(b, n, acc).value;
            LongLength(b + t, n, acc) == Some((v, rest + t)) && |b| == n + |rest| && rest == b[n..]
  {
    if n > 0 {
      assert (b + t)[1..] == b[1..] + t;
      LongLengthLocal(b[1..], n - 1, acc * 256 + b[0], t);
    }
  }

  lemma HeaderLocal(b: bytes, t: bytes)
    requires ReadHeader(b).Some?
    ensures var (h, rest) := ReadHeader(b).value;
            ReadHeader(b + t) == Some((h, rest + t)) && |rest| + 2 <= |b| && rest == b[|b| - |rest|..]
  {
    assert (b + t)[1..] == b[1..] + t;
    if b[0] % 32 == 31 {
      Base128Local(b[1..], 0, 0, t);
    }
    var more := ReadTag(b).value.1;
    assert (more + t)[1..] == more[1..] + t;
    if more[0] > 0x80 {
      LongLengthLocal(more[1..], more[0] - 0x80, 0, t);
    }
  }

  lemma HeaderTail(b: bytes)
    requires ReadHeader(b).Some?
    ensures var rest := ReadHeader(b).value.1;
            |rest| + 2 <= |b| && rest == b[|b| - |rest|..]
  {
    HeaderLocal(b, []);
  }

  /** An element reads the same alone and with anything after it. */
  lemma ReadLocal(b: bytes, t: bytes)
    requires Read(b).Some?
    ensures var e := Read(b).value.0;
            |e.full| >= 2 && |e.content| + 2 <= |e.full| && Read(e.full) == Some((e, []))
                && Read(e.full + t) == Some((e, t))
  {
    var (h, rest) := ReadHeader(b).value;
    var e := Read(b).value.0;
    HeaderTail(b);
    HeaderCut(b, e.full);
    var cut := ReadHeader(e.full).value.1;
    assert cut == e.content && cut[..h.length] == cut && cut[h.length..] == [];
    assert e.full[..|e.full|] == e.full;
    assert Read(e.full) == Some((e, []));
    HeaderLocal(e.full, t);
    assert (cut + t)[..h.length] == e.content && (cut + t)[h.length..] == t;
    assert (e.full + t)[..|e.full|] == e.full;
  }

  /** A header reads the same from any prefix that contains it. */
  lemma HeaderCut(b: bytes, p: bytes)
    requires ReadHeader(b).Some? && |p| <= |b| && p == b[..|p|]
    requires |b| <= |ReadHeader(b).value.1| + |p|
    ensures |ReadHeader(b).value.1| <= |b|
    ensures ReadHeader(p) == Some((ReadHeader(b).value.0, p[|b| - |ReadHeader(b).value.1|..]))
  {
    HeaderTail(b);
    var more := ReadTag(b).value.1;
    LengthShorter(more);
    TagCut(b, p);
    LengthCut(more, ReadTag(p).value.1);
  }

  lemma LengthShorter(b: bytes)
    requires ReadLength(b).Some?
    ensures |ReadLength(b).value.1| < |b|
  {
    if b[0] > 0x80 {
      LongLengthLocal(b[1..], b[0] - 0x80, 0, []);
    }
  }

  lemma TagCut(b: bytes, p: bytes)
    requires b != [] && ReadTag(b).Some? && 0 < |p| <= |b| && p == b[..|p|]
    requires |b| <= |ReadTag(b).value.1| + |p|
    ensures var (tag, rest) := ReadTag(b).value;
            |rest| < |b| && ReadTag(p) == Some((tag, p[|b| - |rest|..])) && rest == b[|b| - |rest|..]
  {
    if b[0] % 32 == 31 {
      Base128Local(b[1..], 0, 0, []);
      Base128Cut(b[1..], 0, 0, p[1..]);
    }
  }

  lemma LengthCut(b: bytes, p: bytes)
    requires ReadLength(b).Some? && |p| <= |b| && p == b[..|p|]
    requires |b| <= |ReadLength(b).value.1| + |p|
    ensures var (n, rest) := ReadLength(b).value;
            |rest| < |b| && ReadLength(p) == Some((n, p[|b| - |rest|..]))
  {
    LengthShorter(b);
    if b[0] > 0x80 {
      LongLengthLocal(b[1..], b[0] - 0x80, 0, []);
      LongLengthCut(b[1..], b[0] - 0x80, 0, p[1..]);
    }
  }

  lemma {:induction false} Base128Cut(b: bytes, shifted: nat, acc: int, p: bytes)
    requires Base128(b, shifted, acc).Some? && |p| <= |b| && p == b[..|p|]
    requires |b| - |Base128(b, shifted, acc).value.1| <= |p|
    ensures var (v, rest) := Base128(b, shifted, acc).value;
            |rest| <= |b| && Base128(p, shifted, acc) == Some((v, p[|b| - |rest|..]))
  {
    Base128Local(b, shifted, acc, []);
    if b[0] >= 0x80 {
      Base128Cut(b[1..], shifted + 1, acc * 128 + b[0] % 128, p[1..]);
    }
  }

  lemma {:induction false} LongLengthCut(b: bytes, n: nat, acc: int, p: bytes)
    requires LongLength(b, n, acc).Some? && n <= |p| <= |b| && p == b[..|p|]
    ensures LongLength(p, n, acc) == Some((LongLength(b, n, acc).value.0, p[n..]))
  {
    if n > 0 {
      LongLengthCut(b[1..], n - 1, acc * 256 + b[0], p[1..]);
    }
  }

  // ---- Writing ----

  /** A number in as few bytes as hold it. */
  function BigEndian(n: nat): (b: bytes)
    ensures |b| >= 1
  {
    if n < 256 then [n] else BigEndian(n / 256) + [n % 256]
  }

  function LengthBytes(n: nat): bytes {
    if n < 0x80 then [n] else [(0x80 + |BigEndian(n)|) % 256] + BigEndian(n)
  }

  /** A compound element with a low tag, its length recomputed from what it wraps. */
  function Wrap(tagClass: int, tag: int, content: bytes): bytes
    requires 0 <= tagClass < 4 && 0 <= tag < 31
  {
    [tagClass * 64 + 32 + tag] + LengthBytes(|content|) + content
  }

  function Wrapped(tagClass: int, tag: int, content: bytes): Element
    requires 0 <= tagClass < 4 && 0 <= tag < 31
  {
    Element(tagClass, true, tag, content, Wrap(tagClass, tag, content))
  }

  const LONGEST := 0x8000_0000

  lemma {:induction false} BigEndianReads(n: nat, more: nat, t: bytes)
    requires 0 < n < LONGEST
    ensures LongLength(BigEndian(n) + t, |BigEndian(n)| + more, 0) == LongLength(t, more, n)
    ensures |BigEndian(n)| <= 4
  {
    if n < 256 {
      assert ([n] + t)[1..] == t;
    } else {
      var high := BigEndian(n / 256);
      assert BigEndian(n) + t == high + ([n % 256] + t);
      BigEndianReads(n / 256, 1 + more, [n % 256] + t);
      assert ([n % 256] + t)[1..] == t;
      BigEndianShort(n);
    }
  }

  lemma BigEndianShort(n: nat)
    requires n < LONGEST
    ensures |BigEndian(n)| <= 4
  {
    var a, b, c := n / 256, n / 256 / 256, n / 256 / 256 / 256;
    assert |BigEndian(c)| == 1;
    assert |BigEndian(b)| <= 2;
    assert |BigEndian(a)| <= 3;
  }

  lemma LengthReads(n: nat, t: bytes)
    requires n < LONGEST
    ensures ReadLength(LengthBytes(n) + t) == Some((n, t))
  {
    var b := LengthBytes(n) + t;
    if n < 0x80 {
      assert b[1..] == t;
    } else {
      BigEndianReads(n, 0, t);
      assert b[1..] == BigEndian(n) + t;
    }
  }

  /** What is wrapped reads back, whatever follows it. */
  lemma WrapReads(tagClass: int, tag: int, content: bytes, t: bytes)
    requires 0 <= tagClass < 4 && 0 <= tag < 31 && |content| < LONGEST
    ensures Read(Wrap(tagClass, tag, content) + t) == Some((Wrapped(tagClass, tag, content), t))
  {
    var n := |content|;
    var b := Wrap(tagClass, tag, content) + t;
    assert b[1..] == LengthBytes(n) + (content + t);
    LengthReads(n, content + t);
    assert ReadHeader(b) == Some((Header(tagClass, true, tag, n), content + t));
    assert (content + t)[..n] == content && (content + t)[n..] == t;
    assert b[..|b| - |content + t| + n] == Wrap(tagClass, tag, content);
  }

  // ---- How long an encoding is ----

  lemma {:induction false} LongLengthMinimal(b: bytes, n: nat, acc: nat)
    requires LongLength(b, n, acc).Some? && (acc > 0 || n > 0)
    ensures var v := LongLength(b, n, acc).value.0;
            acc <= v < LONGEST || n == 0
    ensures var v := LongLength(b, n, acc).value.0;
            v >= 0 && |BigEndian(v)| == (if acc == 0 then 0 else |BigEndian(acc)|) + n
  {
    if n > 0 {
      var next := acc * 256 + b[0];
      assert next > 0;
      LongLengthMinimal(b[1..], n - 1, next);
      if acc > 0 {
        assert next / 256 == acc;
      }
    }
  }

  lemma {:induction false} BigEndianMonotone(m: nat, n: nat)
    requires m <= n
    ensures |BigEndian(m)| <= |BigEndian(n)|
  {
    if m >= 256 {
      BigEndianMonotone(m / 256, n / 256);
    }
  }

  /** A length read was written in no fewer bytes than its own encoding takes. */
  lemma LengthMinimal(b: bytes)
    requires ReadLength(b).Some?
    ensures var (n, rest) := ReadLength(b).value;
            0 <= n < LONGEST && |b| == |LengthBytes(n)| + |rest|
  {
    if b[0] > 0x80 {
      LongLengthMinimal(b[1..], b[0] - 0x80, 0);
      LongLengthLocal(b[1..], b[0] - 0x80, 0, []);
    }
  }

  /** Wrapping no more than an element held takes no more bytes than it took. */
  lemma WrapNoLonger(tagClass: int, tag: int, content: bytes, b: bytes)
    requires 0 <= tagClass < 4 && 0 <= tag < 31
    requires Read(b).Some? && |content| <= |Read(b).value.0.content|
    ensures |Wrap(tagClass, tag, content)| <= |Read(b).value.0.full| && |content| < LONGEST
  {
    var (h, rest) := ReadHeader(b).value;
    var more := ReadTag(b).value.1;
    if b[0] % 32 == 31 {
      Base128Local(b[1..], 0, 0, []);
    }
    LengthMinimal(more);
    BigEndianMonotone(|content|, h.length);
    HeaderTail(b);
  }

  // ---- A run of elements ----

  function Elements(b: bytes): Option<seq<Element>> {
    if b == [] then Some([])
    else
      match Read(b)
      case None => None
      case Some((e, rest)) =>
        ReadShrinks(b);
        match Elements(rest)
        case None => None
        case Some(es) => Some([e] + es)
  }

  function Concat(es: seq<Element>): bytes {
    if es == [] then [] else es[0].full + Concat(es[1..])
  }

  lemma ReadShrinks(b: bytes)
    requires Read(b).Some?
    ensures |Read(b).value.1| < |b|
  {
    ReadLocal(b, []);
  }

  ghost predicate Canonical(es: seq<Element>) {
    forall e :: e in es ==> Read(e.full) == Some((e, []))
  }

  /** Reading a run of elements and laying them end to end are inverse. */
  lemma {:induction false} ElementsConcat(b: bytes)
    requires Elements(b).Some?
    ensures Concat(Elements(b).value) == b && Canonical(Elements(b).value)
    decreases |b|
  {
    if b != [] {
      var (e, rest) := Read(b).value;
      ReadShrinks(b);
      ReadLocal(b, []);
      ElementsConcat(rest);
      assert Elements(b).value[1..] == Elements(rest).value;
    }
  }

  lemma {:induction false} ConcatElements(es: seq<Element>)
    requires Canonical(es)
    ensures Elements(Concat(es)) == Some(es)
  {
    if es != [] {
      ReadLocal(es[0].full, Concat(es[1..]));
      ConcatElements(es[1..]);
      assert [es[0]] + es[1..] == es;
    }
  }

  // ---- Object identifiers ----

  function Arcs(b: bytes): Option<seq<int>> {
    if b == [] then Some([])
    else
      match Base128(b, 0, 0)
      case None => None
      case Some((v, rest)) =>
        Base128Local(b, 0, 0, []);
        match Arcs(rest)
        case None => None
        case Some(arcs) => Some([v] + arcs)
  }

  /** An object identifier at the front of the bytes; the first number holds two arcs. */
  function ReadOid(b: bytes): Option<seq<int>> {
    match Read(b)
    case None => None
    case Some((e, _)) =>
      if e.tagClass != UNIVERSAL || e.tag != TAG_OID || e.compound || e.content == [] then None
      else
        match Arcs(e.content)
        case None => None
        case Some(arcs) =>
          if arcs == [] then None
          else if arcs[0] < 80 then Some([arcs[0] / 40, arcs[0] % 40] + arcs[1..])
          else Some([2, arcs[0] - 80] + arcs[1..])
  }

  lemma WrapLonger(tagClass: int, tag: int, content: bytes)
    requires 0 <= tagClass < 4 && 0 <= tag < 31
    ensures |content| < |Wrap(tagClass, tag, content)|
  {}

  // ---- Identifiers have one spelling ----

  lemma {:induction false} Base128AtLeast(b: bytes, shifted: nat, acc: nat)
    requires Base128(b, shifted, acc).Some?
    ensures Base128(b, shifted, acc).value.0 >= acc * 128
  {
    if b[0] >= 0x80 {
      Base128AtLeast(b[1..], shifted + 1, acc * 128 + b[0] % 128);
    }
  }

  lemma SmallArc(b: bytes, v: int)
    requires 0 <= v < 128
    ensures Base128(b, 0, 0).Some? && Base128(b, 0, 0).value.0 == v <==> b != [] && b[0] == v
    ensures b != [] && b[0] == v ==> Base128(b, 0, 0) == Some((v, b[1..]))
  {
    if b != [] && b[0] > 0x80 && Base128(b, 0, 0).Some? {
      Base128AtLeast(b[1..], 1, b[0] % 128);
    }
  }

  lemma TwoByteArc(b: bytes, v: int)
    requires 128 <= v < 16384
    ensures Base128(b, 0, 0).Some? && Base128(b, 0, 0).value.0 == v <==>
        |b| >= 2 && b[0] == 0x80 + v / 128 && b[1] == v % 128
    ensures |b| >= 2 && b[0] == 0x80 + v / 128 && b[1] == v % 128 ==> Base128(b, 0, 0) == Some((v, b[2..]))
  {
    if b != [] && b[0] > 0x80 {
      var more := b[1..];
      var acc: int := b[0] % 128;
      assert Base128(b, 0, 0) == Base128(more, 1, acc);
      if more != [] {
        assert more[1..] == b[2..];
        if more[0] >= 0x80 && Base128(more, 1, acc).Some? {
          Base128AtLeast(more[1..], 2, acc * 128 + more[0] % 128);
        }
      }
    }
  }

  // ---- The same in bytes ----

  /** A length below 2^32 as section 10.1 of X.690 has it: itself below 128, else how many bytes it
      takes and those, the most significant first. */
  function LengthOf(n: nat): bytes {
    if n < 0x80 then [n]
    else if n < 0x100 then [0x81, n]
    else if n < 0x1_0000 then [0x82, n / 0x100, n % 0x100]
    else if n < 0x100_0000 then [0x83, n / 0x1_0000, n / 0x100 % 0x100, n % 0x100]
    else [0x84, n / 0x100_0000 % 0x100, n / 0x1_0000 % 0x100, n / 0x100 % 0x100, n % 0x100]
  }

  lemma LengthWritten(n: nat)
    requires n < LONGEST
    ensures LengthBytes(n) == LengthOf(n)
  {
    if n >= 0x80 {
      BigEndianWritten(n);
    }
  }

  lemma BigEndianWritten(n: nat)
    requires 0x80 <= n < LONGEST
    ensures [(0x80 + |BigEndian(n)|) % 256] + BigEndian(n) == LengthOf(n)
  {
    var a, b, c := n / 256, n / 256 / 256, n / 256 / 256 / 256;
    Halves(n);
    assert n < 0x100 ==> BigEndian(n) == [n];
    assert BigEndian(c) == [c];
    assert BigEndian(b) == if b < 256 then [b] else [c, b % 256];
    assert BigEndian(a) == if a < 256 then [a] else if b < 256 then [b, a % 256] else [c, b % 256, a % 256];
  }

  lemma Halves(n: nat)
    requires n < LONGEST
    ensures n / 256 / 256 == n / 0x1_0000 && n / 256 / 256 / 256 == n / 0x100_0000 < 128
    ensures (n / 256 < 256 <==> n < 0x1_0000) && (n / 0x1_0000 < 256 <==> n < 0x100_0000)
  {}

  /** An element of any kind with a one-byte tag: the kind and the tag are in its first byte. */
  function ElementBytes(first: byte, content: bytes): bytes {
    [first] + LengthOf(|content|) + content
  }

  function AsElement(first: byte, content: bytes): Element {
    Element(first / 64, first / 32 % 2 == 1, first % 32, content, ElementBytes(first, content))
  }

  lemma BytesRead(first: byte, content: bytes, t: bytes)
    requires first % 32 != 31 && |content| < LONGEST
    ensures Read(ElementBytes(first, content) + t) == Some((AsElement(first, content), t))
  {
    var n := |content|;
    var b := ElementBytes(first, content) + t;
    LengthWritten(n);
    hide LengthOf, LengthBytes, ReadLength;
    assert b[1..] == LengthBytes(n) + (content + t);
    LengthReads(n, content + t);
    assert b[0] == first && ReadTag(b) == Some((first % 32, b[1..]));
    assert ReadHeader(b) == Some((Header(first / 64, first / 32 % 2 == 1, first % 32, n), content + t));
    assert (content + t)[..n] == content && (content + t)[n..] == t;
    assert b[..|b| - |content + t| + n] == ElementBytes(first, content);
  }

  lemma WrapWritten(tagClass: int, tag: int, content: bytes)
    requires 0 <= tagClass < 4 && 0 <= tag < 31 && |content| < LONGEST
    ensures Wrap(tagClass, tag, content) == ElementBytes(tagClass * 64 + 32 + tag, content)
  {
    LengthWritten(|content|);
  }

  // ---- Object identifiers in bytes ----

  /** The leading bytes of a base-128 number, each with its high bit set. */
  function Leading(v: nat): bytes {
    (if v < 128 then [] else Leading(v / 128)) + [128 + v % 128]
  }

  /** A number in base 128, the most significant digit first, the last without its high bit. */
  function PutBase128(v: nat): bytes {
    (if v < 128 then [] else Leading(v / 128)) + [v % 128]
  }

  lemma {:induction false} LeadingReads(v: nat, t: bytes)
    requires 0 < v < 0x100_0000
    ensures |Leading(v)| <= 4
    ensures Base128(Leading(v) + t, 0, 0) == Base128(t, |Leading(v)|, v)
    ensures v < 0x2_0000 ==> |Leading(v)| <= 3
    ensures v < 0x4000 ==> |Leading(v)| <= 2
    ensures v < 0x80 ==> |Leading(v)| == 1
  {
    if v < 128 {
      assert ([128 + v] + t)[1..] == t;
      assert [] + [128 + v % 128] == [128 + v];
    } else {
      var last := [128 + v % 128];
      LeadingReads(v / 128, last + t);
      assert Leading(v) + t == Leading(v / 128) + (last + t);
      assert (last + t)[1..] == t;
      assert v / 128 * 128 + v % 128 == v;
    }
  }

  /** A number below 2^31 reads back. */
  lemma Base128Reads(v: nat, t: bytes)
    requires v < 0x8000_0000
    ensures Base128(PutBase128(v) + t, 0, 0) == Some((v, t))
  {
    var last: bytes := [v % 128];
    assert (last + t)[1..] == t;
    if v < 128 {
      assert [] + last == last;
    } else {
      LeadingReads(v / 128, last + t);
      assert PutBase128(v) + t == Leading(v / 128) + (last + t);
      assert v / 128 * 128 + v % 128 == v;
    }
  }
}
