/** Printing a distinguished name so that it can be read in one way only
    (internal/certinfo/name.go; RFC 4514). */
module DistinguishedName {
  import opened Bytes
  import opened Options

  type Oid = seq<nat>

  /** A value that was read as text, one that can be written as DER, or neither. */
  datatype Value = Text(text: string) | Encoded(der: bytes) | Unreadable

  datatype Attribute = Attribute(oid: Oid, value: Value)

  type Rdn = seq<Attribute>

  const ATTRIBUTE_NAMES: map<string, string> := map[
    "2.5.4.3" := "CN",
    "2.5.4.5" := "SERIALNUMBER",
    "2.5.4.6" := "C",
    "2.5.4.7" := "L",
    "2.5.4.8" := "ST",
    "2.5.4.9" := "STREET",
    "2.5.4.10" := "O",
    "2.5.4.11" := "OU",
    "2.5.4.17" := "POSTALCODE",
    "2.5.4.4" := "SN",
    "2.5.4.12" := "title",
    "2.5.4.15" := "businessCategory",
    "2.5.4.42" := "GN",
    "2.5.4.65" := "pseudonym",
    "2.5.4.97" := "organizationIdentifier",
    "0.9.2342.19200300.100.1.25" := "DC",
    "1.2.840.113549.1.9.1" := "emailAddress",
    "1.3.6.1.4.1.311.60.2.1.1" := "jurisdictionL",
    "1.3.6.1.4.1.311.60.2.1.2" := "jurisdictionST",
    "1.3.6.1.4.1.311.60.2.1.3" := "jurisdictionC"
  ]

  // ---- Joining and splitting ----

  function Join(pieces: seq<string>, sep: char): string {
    if pieces == [] then "" else if |pieces| == 1 then pieces[0] else pieces[0] + [sep] + Join(pieces[1..], sep)
  }

  /** The pieces between separators that no backslash escapes. */
  function Split(s: string, sep: char): (pieces: seq<string>)
    ensures pieces != [] && |pieces[0]| <= |s|
    decreases |s|
  {
    if s == "" then [""]
    else if s[0] == sep then [""] + Split(s[1..], sep)
    else
      var n := if s[0] == '\\' && |s| >= 2 then 2 else 1;
      var more := Split(s[n..], sep);
      [s[..n] + more[0]] + more[1..]
  }

  /** Every separator is escaped, and so is whatever follows. */
  predicate Whole(s: string, sep: char)
    decreases |s|
  {
    s == "" || (if s[0] == '\\' then |s| >= 2 && Whole(s[2..], sep) else s[0] != sep && Whole(s[1..], sep))
  }

  lemma {:induction false} WholeConcat(a: string, b: string, sep: char)
    requires Whole(a, sep) && Whole(b, sep)
    ensures Whole(a + b, sep)
    decreases |a|
  {
    if a == "" {
      assert a + b == b;
    } else {
      var n := if a[0] == '\\' then 2 else 1;
      assert (a + b)[n..] == a[n..] + b;
      WholeConcat(a[n..], b, sep);
    }
  }

  lemma {:induction false} SplitWhole(a: string, sep: char, t: string)
    requires sep != '\\' && Whole(a, sep)
    ensures Split(a, sep) == [a] && Split(a + [sep] + t, sep) == [a] + Split(t, sep)
    decreases |a|
  {
    var s := a + [sep] + t;
    if a == "" {
      assert s[1..] == t;
    } else {
      var n := if a[0] == '\\' then 2 else 1;
      assert s[..n] == a[..n] && s[n..] == a[n..] + [sep] + t;
      SplitWhole(a[n..], sep, t);
      assert a[..n] + a[n..] == a;
    }
  }

  ghost predicate AllWhole(pieces: seq<string>, sep: char) {
    forall i :: 0 <= i < |pieces| ==> Whole(pieces[i], sep)
  }

  lemma {:induction false} SplitJoin(pieces: seq<string>, sep: char)
    requires pieces != [] && sep != '\\' && AllWhole(pieces, sep)
    ensures Split(Join(pieces, sep), sep) == pieces
  {
    SplitWhole(pieces[0], sep, Join(pieces[1..], sep));
    if |pieces| > 1 {
      SplitJoin(pieces[1..], sep);
    }
  }

  lemma {:induction false} JoinWhole(pieces: seq<string>, sep: char, other: char)
    requires sep != other && sep != '\\' && AllWhole(pieces, other)
    ensures Whole(Join(pieces, sep), other)
  {
    if |pieces| > 1 {
      JoinWhole(pieces[1..], sep, other);
      var more := Join(pieces[1..], sep);
      assert ([sep] + more)[1..] == more;
      WholeConcat(pieces[0], [sep] + more, other);
      assert pieces[0] + ([sep] + more) == pieces[0] + [sep] + more;
    }
  }

  // ---- Names of attributes ----

  function Digit(d: nat): char
    requires d < 10
  {
    '0' + d as char
  }

  function Decimal(n: nat): (s: string)
    ensures s != "" && forall i :: 0 <= i < |s| ==> '0' <= s[i] <= '9'
  {
    if n < 10 then [Digit(n)] else Decimal(n / 10) + [Digit(n % 10)]
  }

  lemma {:induction false} DecimalInjective(m: nat, n: nat)
    requires Decimal(m) == Decimal(n)
    ensures m == n
  {
    var s := Decimal(m);
    if m >= 10 && n >= 10 {
      assert s[..|s| - 1] == Decimal(m / 10) == Decimal(n / 10);
      DecimalInjective(m / 10, n / 10);
    }
    assert s[|s| - 1] == Digit(m % 10) == Digit(n % 10);
  }

  function Arcs(oid: Oid): (pieces: seq<string>)
    ensures |pieces| == |oid|
    ensures forall i :: 0 <= i < |oid| ==> pieces[i] == Decimal(oid[i])
  {
    seq(|oid|, i requires 0 <= i < |oid| => Decimal(oid[i]))
  }

  function Dotted(oid: Oid): string {
    Join(Arcs(oid), '.')
  }

  predicate Plain(s: string) {
    forall i :: 0 <= i < |s| ==> s[i] == '.' || '0' <= s[i] <= '9' || 'A' <= s[i] <= 'Z' || 'a' <= s[i] <= 'z'
  }

  predicate Numeric(s: string) {
    forall i :: 0 <= i < |s| ==> s[i] == '.' || '0' <= s[i] <= '9'
  }

  lemma {:induction false} NumericJoin(pieces: seq<string>)
    requires forall i :: 0 <= i < |pieces| ==> Numeric(pieces[i])
    ensures Numeric(Join(pieces, '.'))
  {
    if |pieces| > 1 {
      NumericJoin(pieces[1..]);
    }
  }

  lemma {:induction false} PlainWhole(s: string, sep: char)
    requires Plain(s) && forall i :: 0 <= i < |s| ==> s[i] != sep
    ensures Whole(s, sep)
  {
    if s != "" {
      PlainWhole(s[1..], sep);
    }
  }

  lemma DottedInjective(t: Oid, u: Oid)
    requires Dotted(t) == Dotted(u)
    ensures t == u
  {
    forall oid: Oid | oid != []
      ensures Split(Dotted(oid), '.') == Arcs(oid) && Dotted(oid) != ""
    {
      forall i | 0 <= i < |oid|
        ensures Whole(Arcs(oid)[i], '.')
      {
        PlainWhole(Decimal(oid[i]), '.');
      }
      SplitJoin(Arcs(oid), '.');
    }
    assert Arcs(t) == Arcs(u);
    forall i | 0 <= i < |t|
      ensures t[i] == u[i]
    {
      assert Arcs(t)[i] == Arcs(u)[i];
      DecimalInjective(t[i], u[i]);
    }
  }

  function AttributeName(oid: Oid): string {
    if Dotted(oid) in ATTRIBUTE_NAMES then ATTRIBUTE_NAMES[Dotted(oid)] else Dotted(oid)
  }

  lemma TableNames(d: string)
    requires d in ATTRIBUTE_NAMES
    ensures var name := ATTRIBUTE_NAMES[d]; Plain(name) && name != "" && 'A' <= name[0]
  {}

  lemma TableInjective(d: string, e: string)
    requires d in ATTRIBUTE_NAMES && e in ATTRIBUTE_NAMES && ATTRIBUTE_NAMES[d] == ATTRIBUTE_NAMES[e]
    ensures d == e
  {}

  lemma DottedNumeric(oid: Oid)
    ensures Numeric(Dotted(oid))
  {
    NumericJoin(Arcs(oid));
  }

  /** No two attributes are printed under one name. */
  lemma NamesDistinct(t: Oid, u: Oid)
    requires AttributeName(t) == AttributeName(u)
    ensures t == u
  {
    hide Dotted;
    var d, e := Dotted(t), Dotted(u);
    DottedNumeric(t);
    DottedNumeric(u);
    if d in ATTRIBUTE_NAMES {
      TableNames(d);
    }
    if e in ATTRIBUTE_NAMES {
      TableNames(e);
    }
    if d in ATTRIBUTE_NAMES && e in ATTRIBUTE_NAMES {
      TableInjective(d, e);
    }
    DottedInjective(t, u);
  }

  lemma NamePlain(oid: Oid)
    ensures Plain(AttributeName(oid))
  {
    hide Dotted;
    DottedNumeric(oid);
    if Dotted(oid) in ATTRIBUTE_NAMES {
      TableNames(Dotted(oid));
    }
  }

  // ---- Values ----

  const SPECIAL: set<char> := {',', '+', '"', '\\', '<', '>', ';'}

  /** What section 2.4 of RFC 4514 lets a backslash stand before, itself included. */
  const ESCAPABLE: set<char> := SPECIAL + {' ', '#', '='}

  predicate Escaped(text: string, i: nat)
    requires i < |text|
  {
    text[i] in SPECIAL || (text[i] == ' ' && (i == 0 || i == |text| - 1)) || (text[i] == '#' && i == 0)
  }

  /** The text from `i` on, as it is printed. */
  function PrintedFrom(text: string, i: nat): string
    requires i <= |text|
    decreases |text| - i
  {
    if i == |text| then "" else (if Escaped(text, i) then ['\\', text[i]] else [text[i]]) + PrintedFrom(text, i + 1)
  }

  const HEX: string := "0123456789abcdef"

  function HexDigit(d: nat): char
    requires d < 16
  {
    HEX[d]
  }

  function Hex(der: bytes): string {
    if der == [] then "" else [HexDigit(der[0] / 16), HexDigit(der[0] % 16)] + Hex(der[1..])
  }

  function PrintedValue(v: Value): string {
    match v
    case Text(text) => PrintedFrom(text, 0)
    case Encoded(der) => "#" + Hex(der)
    case Unreadable => "#unreadable"
  }

  method AttributeValue(v: Value) returns (b: string)
    ensures b == PrintedValue(v)
  {
    hide PrintedFrom, Escaped, Hex;
    if !v.Text? {
      return if v.Encoded? then "#" + Hex(v.der) else "#unreadable";
    }
    var text := v.text;
    b := "";
    assert b + PrintedFrom(text, 0) == PrintedFrom(text, 0);
    for i := 0 to |text|
      invariant b + PrintedFrom(text, i) == PrintedFrom(text, 0)
    {
      var r := text[i];
      var escape := false;
      match r {
        case ',' | '+' | '"' | '\\' | '<' | '>' | ';' => escape := true;
        case ' ' => escape := i == 0 || i == |text| - 1;
        case '#' => escape := i == 0;
        case _ =>
      }
      EscapedMeans(text, i);
      PrintedMore(b, text, i);
      if escape {
        b := b + ['\\'];
      }
      b := b + [r];
    }
    NoneLeft(b, text);
  }

  lemma EscapedMeans(text: string, i: nat)
    requires i < |text|
    ensures Escaped(text, i) <==>
            match text[i]
            case ',' | '+' | '"' | '\\' | '<' | '>' | ';' => true
            case ' ' => i == 0 || i == |text| - 1
            case '#' => i == 0
            case _ => false
  {}

  lemma PrintedMore(b: string, text: string, i: nat)
    requires i < |text|
    ensures b + PrintedFrom(text, i) ==
            (if Escaped(text, i) then b + ['\\'] + [text[i]] else b + [text[i]]) + PrintedFrom(text, i + 1)
  {
    hide Escaped;
    var rest := PrintedFrom(text, i + 1);
    if Escaped(text, i) {
      assert b + (['\\', text[i]] + rest) == b + ['\\'] + [text[i]] + rest;
    } else {
      assert b + ([text[i]] + rest) == b + [text[i]] + rest;
    }
  }

  lemma NoneLeft(b: string, text: string)
    ensures b + PrintedFrom(text, |text|) == b
  {}

  // ---- The whole name ----

  function PrintedAttribute(a: Attribute): string {
    AttributeName(a.oid) + "=" + PrintedValue(a.value)
  }

  function PrintedAttributes(rdn: Rdn): (pieces: seq<string>)
    ensures |pieces| == |rdn|
    ensures forall i :: 0 <= i < |rdn| ==> pieces[i] == PrintedAttribute(rdn[i])
  {
    seq(|rdn|, i requires 0 <= i < |rdn| => PrintedAttribute(rdn[i]))
  }

  function PrintedRdn(rdn: Rdn): string {
    Join(PrintedAttributes(rdn), '+')
  }

  /** The last component first. */
  function PrintedRdns(rdns: seq<Rdn>): seq<string> {
    if rdns == [] then [] else PrintedRdns(rdns[1..]) + [PrintedRdn(rdns[0])]
  }

  function Printed(rdns: seq<Rdn>): string {
    Join(PrintedRdns(rdns), ',')
  }

  predicate ParsedIntoField(oid: Oid) {
    |oid| == 4 && oid[..3] == [2, 5, 4] && oid[3] in {3, 5, 6, 7, 8, 9, 10, 11, 17}
  }

  /** The attributes no field holds, one to a component, before those the fields make up. */
  function Assembled(names: seq<Attribute>, extra: bool, fields: seq<Rdn>): seq<Rdn> {
    if extra then fields else Unparsed(names) + fields
  }

  function Unparsed(names: seq<Attribute>): seq<Rdn> {
    if names == [] then []
    else
      var last := names[|names| - 1];
      Unparsed(names[..|names| - 1]) + if ParsedIntoField(last.oid) then [] else [[last]]
  }

  /** Appending to what was printed of a join. */
  lemma {:induction false} JoinMore(pieces: seq<string>, sep: char, p: string)
    ensures Join(pieces + [p], sep) == if pieces == [] then p else Join(pieces, sep) + [sep] + p
  {
    if pieces == [] {
      assert pieces + [p] == [p];
    } else {
      assert (pieces + [p])[1..] == pieces[1..] + [p];
      JoinMore(pieces[1..], sep, p);
    }
  }

  method PrintName(names: seq<Attribute>, extra: bool, fields: seq<Rdn>) returns (b: string)
    ensures b == Printed(Assembled(names, extra, fields))
  {
    hide Join, PrintedAttribute, ParsedIntoField;
    var rdns: seq<Rdn> := [];
    if !extra {
      for k := 0 to |names|
        invariant rdns == Unparsed(names[..k])
      {
        assert names[..k + 1][..k] == names[..k];
        if !ParsedIntoField(names[k].oid) {
          rdns := rdns + [[names[k]]];
        }
      }
      assert names[..|names|] == names;
    }
    rdns := rdns + fields;
    assert extra ==> rdns == fields;
    b := "";
    EmptyJoin();
    for i := 0 to |rdns|
      invariant b == Printed(rdns[|rdns| - i..])
    {
      ghost var done := rdns[|rdns| - i..];
      var rdn := rdns[|rdns| - 1 - i];
      JoinMore(PrintedRdns(done), ',', PrintedRdn(rdn));
      PrintedCount(done);
      assert rdns[|rdns| - 1 - i..] == [rdn] + done;
      if i > 0 {
        b := b + ",";
      }
      var one := PrintRdn(rdn);
      b := b + one;
    }
    assert rdns[0..] == rdns;
  }

  lemma {:induction false} PrintedCount(rdns: seq<Rdn>)
    ensures |PrintedRdns(rdns)| == |rdns|
  {
    if rdns != [] {
      PrintedCount(rdns[1..]);
    }
  }

  lemma EmptyJoin()
    ensures forall sep :: Join([], sep) == ""
  {}

  method PrintRdn(rdn: Rdn) returns (b: string)
    ensures b == PrintedRdn(rdn)
  {
    hide Join, PrintedValue, AttributeName;
    ghost var all := PrintedAttributes(rdn);
    b := "";
    EmptyJoin();
    for j := 0 to |rdn|
      invariant b == Join(all[..j], '+')
    {
      JoinMore(all[..j], '+', all[j]);
      assert all[..j + 1] == all[..j] + [all[j]];
      if j > 0 {
        b := b + "+";
      }
      var value := AttributeValue(rdn[j].value);
      ghost var before := b;
      b := b + AttributeName(rdn[j].oid);
      b := b + "=";
      b := b + value;
      assert b == before + all[j];
    }
    assert all[..|rdn|] == all;
  }

  // ---- A reader for all that is printed ----

  // It takes what the grammar refuses as well: U+0000 bare, no bytes, and "#unreadable".

  datatype Reading = Reading(name: string, value: Value)

  function Before(c: char, r: Option<string>): Option<string> {
    if r.Some? then Some([c] + r.value) else None
  }

  /** Characters, each escaped where the grammar demands it and nowhere it forbids it. */
  function ReadChars(s: string): Option<string>
    decreases |s|
  {
    if s == "" then Some("")
    else if s[0] == '\\' then
      if |s| >= 2 && s[1] in ESCAPABLE then Before(s[1], ReadChars(s[2..])) else None
    else if s[0] in SPECIAL || s == " " then None
    else Before(s[0], ReadChars(s[1..]))
  }

  function Nibble(c: char): Option<nat> {
    if '0' <= c <= '9' then Some(c as nat - '0' as nat)
    else if 'a' <= c <= 'f' then Some(c as nat - 'a' as nat + 10)
    else if 'A' <= c <= 'F' then Some(c as nat - 'A' as nat + 10)
    else None
  }

  function ReadHex(s: string): Option<bytes>
    decreases |s|
  {
    if s == "" then Some([])
    else if |s| == 1 then None
    else
      var high, low, more := Nibble(s[0]), Nibble(s[1]), ReadHex(s[2..]);
      if high.Some? && low.Some? && more.Some? && high.value < 16 && low.value < 16 then
        Some([high.value * 16 + low.value] + more.value)
      else None
  }

  function ReadValue(s: string): Option<Value> {
    if s != "" && s[0] == '#' then
      if s == "#unreadable" then Some(Unreadable)
      else
        var der := ReadHex(s[1..]);
        if der.Some? then Some(Encoded(der.value)) else None
    else if s != "" && s[0] == ' ' then None
    else
      var text := ReadChars(s);
      if text.Some? then Some(Text(text.value)) else None
  }

  function ReadAttribute(s: string): Option<Reading> {
    var pieces := Split(s, '=');
    var name := pieces[0];
    if |name| == |s| then None
    else
      var value := ReadValue(s[|name| + 1..]);
      if value.Some? then Some(Reading(name, value.value)) else None
  }

  function ReadAttributes(pieces: seq<string>): Option<seq<Reading>> {
    if pieces == [] then Some([])
    else
      var first, more := ReadAttribute(pieces[0]), ReadAttributes(pieces[1..]);
      if first.Some? && more.Some? then Some([first.value] + more.value) else None
  }

  function ReadRdns(pieces: seq<string>): Option<seq<seq<Reading>>> {
    if pieces == [] then Some([])
    else
      var first, more := ReadAttributes(Split(pieces[0], '+')), ReadRdns(pieces[1..]);
      if first.Some? && more.Some? then Some([first.value] + more.value) else None
  }

  function ReadName(s: string): Option<seq<seq<Reading>>> {
    if s == "" then Some([]) else ReadRdns(Split(s, ','))
  }

  // ---- What is printed is read back ----

  lemma {:induction false} CharsReadBack(text: string, i: nat)
    requires i <= |text|
    ensures ReadChars(PrintedFrom(text, i)) == Some(text[i..])
    decreases |text| - i
  {
    if i < |text| {
      CharsReadBack(text, i + 1);
      var rest := PrintedFrom(text, i + 1);
      var s := PrintedFrom(text, i);
      assert s == (if Escaped(text, i) then ['\\', text[i]] else [text[i]]) + rest;
      assert s[if Escaped(text, i) then 2 else 1..] == rest;
      assert i + 1 < |text| ==> rest != "";
      assert text[i..] == [text[i]] + text[i + 1..];
    } else {
      assert text[i..] == "";
    }
  }

  lemma {:induction false} HexReadBack(der: bytes)
    ensures ReadHex(Hex(der)) == Some(der)
    ensures forall i :: 0 <= i < |Hex(der)| ==> Hex(der)[i] in "0123456789abcdef"
  {
    if der != [] {
      HexReadBack(der[1..]);
      OneByte(der[0], Hex(der[1..]));
      assert der == [der[0]] + der[1..];
    }
  }

  lemma OneByte(b: byte, more: string)
    ensures var rest := ReadHex(more);
            ReadHex([HexDigit(b / 16), HexDigit(b % 16)] + more) == if rest.Some? then Some([b] + rest.value) else None
  {
    hide HexDigit, Nibble;
    var s := [HexDigit(b / 16), HexDigit(b % 16)] + more;
    HexDigits(b / 16);
    HexDigits(b % 16);
    assert s[2..] == more;
  }

  lemma HexDigits(d: nat)
    requires d < 16
    ensures Nibble(HexDigit(d)) == Some(d)
  {}

  lemma HexPlain()
    ensures Plain(HEX) && 'u' !in HEX
  {}

  /** Text never reads back as the hexadecimal form, nor the hexadecimal form as text. */
  lemma ValueReadBack(v: Value)
    ensures ReadValue(PrintedValue(v)) == Some(v)
  {
    match v
    case Text(text) => TextReadBack(text);
    case Encoded(der) => EncodedReadBack(der);
    case Unreadable =>
  }

  lemma TextReadBack(text: string)
    ensures ReadValue(PrintedFrom(text, 0)) == Some(Text(text))
  {
    hide ReadChars;
    CharsReadBack(text, 0);
    assert text[0..] == text;
    assert text != "" ==> PrintedFrom(text, 0)[0] == if Escaped(text, 0) then '\\' else text[0];
  }

  lemma EncodedReadBack(der: bytes)
    ensures ReadValue("#" + Hex(der)) == Some(Encoded(der))
  {
    hide ReadChars, ReadHex, Hex;
    HexReadBack(der);
    HexPlain();
    assert ("#" + Hex(der))[1..] == Hex(der);
    assert "#unreadable"[1] == 'u';
  }

  lemma {:induction false} TextWhole(text: string, i: nat, sep: char)
    requires i <= |text| && sep in SPECIAL && sep != '\\'
    ensures Whole(PrintedFrom(text, i), sep)
    decreases |text| - i
  {
    if i < |text| {
      TextWhole(text, i + 1, sep);
      var rest := PrintedFrom(text, i + 1);
      var s := PrintedFrom(text, i);
      assert s[if Escaped(text, i) then 2 else 1..] == rest;
    }
  }

  lemma ValueWhole(v: Value, sep: char)
    requires sep == ',' || sep == '+'
    ensures Whole(PrintedValue(v), sep)
  {
    match v
    case Text(text) => TextWhole(text, 0, sep);
    case Encoded(der) =>
      HexReadBack(der);
      HexPlain();
      PlainWhole(Hex(der), sep);
      assert ("#" + Hex(der))[1..] == Hex(der);
    case Unreadable =>
      PlainWhole("unreadable", sep);
      assert "#unreadable"[1..] == "unreadable";
  }

  lemma AttributeWhole(a: Attribute, sep: char)
    requires sep == ',' || sep == '+'
    ensures Whole(PrintedAttribute(a), sep)
  {
    hide AttributeName, PrintedValue;
    var name, value := AttributeName(a.oid), PrintedValue(a.value);
    NamePlain(a.oid);
    PlainWhole(name, sep);
    ValueWhole(a.value, sep);
    assert ("=" + value)[1..] == value;
    WholeConcat(name, "=" + value, sep);
    assert name + ("=" + value) == PrintedAttribute(a);
  }

  function AsReading(a: Attribute): Reading {
    Reading(AttributeName(a.oid), a.value)
  }

  lemma AttributeReadBack(a: Attribute)
    ensures ReadAttribute(PrintedAttribute(a)) == Some(AsReading(a))
  {
    hide AttributeName, PrintedValue, ReadValue, Split;
    var name, value := AttributeName(a.oid), PrintedValue(a.value);
    NamePlain(a.oid);
    PlainWhole(name, '=');
    SplitWhole(name, '=', value);
    ValueReadBack(a.value);
    var s := name + ['='] + value;
    assert s == PrintedAttribute(a) && s[|name| + 1..] == value;
  }

  function AsReadings(rdn: Rdn): seq<Reading> {
    if rdn == [] then [] else [AsReading(rdn[0])] + AsReadings(rdn[1..])
  }

  lemma {:induction false} AttributesReadBack(rdn: Rdn)
    ensures ReadAttributes(PrintedAttributes(rdn)) == Some(AsReadings(rdn))
  {
    hide ReadAttribute, PrintedAttribute;
    if rdn != [] {
      AttributeReadBack(rdn[0]);
      AttributesReadBack(rdn[1..]);
      assert PrintedAttributes(rdn)[1..] == PrintedAttributes(rdn[1..]);
    }
  }

  lemma RdnReadBack(rdn: Rdn)
    requires rdn != []
    ensures ReadAttributes(Split(PrintedRdn(rdn), '+')) == Some(AsReadings(rdn))
    ensures Whole(PrintedRdn(rdn), ',') && PrintedRdn(rdn) != ""
  {
    hide PrintedAttribute, Join, Split, Whole, ReadAttributes;
    var pieces := PrintedAttributes(rdn);
    forall i | 0 <= i < |rdn|
      ensures Whole(pieces[i], '+') && Whole(pieces[i], ',')
    {
      AttributeWhole(rdn[i], '+');
      AttributeWhole(rdn[i], ',');
    }
    SplitJoin(pieces, '+');
    JoinWhole(pieces, '+', ',');
    AttributesReadBack(rdn);
    JoinNotEmpty(pieces, '+');
    AttributeNotEmpty(rdn[0]);
  }

  lemma AttributeNotEmpty(a: Attribute)
    ensures PrintedAttribute(a) != ""
  {
    assert '=' in PrintedAttribute(a);
  }

  lemma JoinNotEmpty(pieces: seq<string>, sep: char)
    requires pieces != []
    ensures pieces[0] != "" ==> Join(pieces, sep) != ""
  {}

  /** What a reader should make of a name: its components in reverse. */
  function NameAsRead(rdns: seq<Rdn>): seq<seq<Reading>> {
    if rdns == [] then [] else NameAsRead(rdns[1..]) + [AsReadings(rdns[0])]
  }

  lemma {:induction false} ReadRdnsMore(pieces: seq<string>, p: string)
    ensures var all, last := ReadRdns(pieces), ReadAttributes(Split(p, '+'));
            ReadRdns(pieces + [p]) == if all.Some? && last.Some? then Some(all.value + [last.value]) else None
  {
    hide ReadAttributes, Split;
    if pieces == [] {
      assert pieces + [p] == [p];
      assert ReadRdns([p][1..]) == Some([]);
      var last := ReadAttributes(Split(p, '+'));
      assert last.Some? ==> [last.value] + [] == [] + [last.value];
    } else {
      ReadRdnsMore(pieces[1..], p);
      assert (pieces + [p])[1..] == pieces[1..] + [p];
      var first, more, last :=
          ReadAttributes(Split(pieces[0], '+')), ReadRdns(pieces[1..]), ReadAttributes(Split(p, '+'));
      if first.Some? && more.Some? && last.Some? {
        assert [first.value] + (more.value + [last.value]) == [first.value] + more.value + [last.value];
      }
    }
  }

  lemma {:induction false} RdnsReadBack(rdns: seq<Rdn>)
    requires forall i :: 0 <= i < |rdns| ==> rdns[i] != []
    ensures ReadRdns(PrintedRdns(rdns)) == Some(NameAsRead(rdns))
    ensures AllWhole(PrintedRdns(rdns), ',') && forall i :: 0 <= i < |rdns| ==>
        |PrintedRdns(rdns)| == |rdns| && PrintedRdns(rdns)[i] != ""
  {
    hide ReadAttributes, Split, PrintedRdn, Whole;
    if rdns != [] {
      RdnsReadBack(rdns[1..]);
      RdnReadBack(rdns[0]);
      PrintedCount(rdns);
      PrintedCount(rdns[1..]);
      ReadRdnsMore(PrintedRdns(rdns[1..]), PrintedRdn(rdns[0]));
    }
  }

  /** Splitting at the separators no backslash escapes and taking the backslashes away
      recovers every attribute and value. */
  lemma NameReadBack(rdns: seq<Rdn>)
    requires forall i :: 0 <= i < |rdns| ==> rdns[i] != []
    ensures ReadName(Printed(rdns)) == Some(NameAsRead(rdns))
  {
    hide ReadRdns, PrintedRdns, Join, Split;
    PrintedCount(rdns);
    if rdns == [] {
      EmptyJoin();
      RdnsReadBack(rdns);
      assert PrintedRdns(rdns) == [];
      NothingRead();
    } else {
      RdnsReadBack(rdns);
      var pieces := PrintedRdns(rdns);
      SplitJoin(pieces, ',');
      JoinNotEmpty(pieces, ',');
    }
  }

  lemma NothingRead()
    ensures ReadRdns([]) == Some([])
  {}

  /** So two names printed alike are the same name. */
  lemma Unambiguous(x: seq<Rdn>, y: seq<Rdn>)
    requires forall i :: 0 <= i < |x| ==> x[i] != []
    requires forall i :: 0 <= i < |y| ==> y[i] != []
    requires Printed(x) == Printed(y)
    ensures x == y
  {
    hide Printed, ReadName;
    NameReadBack(x);
    NameReadBack(y);
    SameReadings(x, y);
  }

  lemma {:induction false} SameReadings(x: seq<Rdn>, y: seq<Rdn>)
    requires NameAsRead(x) == NameAsRead(y)
    ensures x == y
  {
    var r := NameAsRead(x);
    if x != [] && y != [] {
      assert r[..|r| - 1] == NameAsRead(x[1..]) == NameAsRead(y[1..]);
      assert r[|r| - 1] == AsReadings(x[0]) == AsReadings(y[0]);
      SameReadings(x[1..], y[1..]);
      SameAttributes(x[0], y[0]);
    }
  }

  lemma {:induction false} SameAttributes(x: Rdn, y: Rdn)
    requires AsReadings(x) == AsReadings(y)
    ensures x == y
  {
    hide AttributeName;
    var r := AsReadings(x);
    if x != [] && y != [] {
      assert r[1..] == AsReadings(x[1..]) == AsReadings(y[1..]);
      assert r[0] == AsReading(x[0]) == AsReading(y[0]);
      NamesDistinct(x[0].oid, y[0].oid);
      SameAttributes(x[1..], y[1..]);
    }
  }

  // ---- What a reader of RFC 4514 takes ----

  const NUL: char := 0 as char

  datatype Objection = BareNul | BareSpecial | BareSpace | BadEscape | PartOfCharacter | NotHex

  /** What the grammar of section 3 of RFC 4514 makes of a value, or why it has no place there. */
  datatype Grammar = Taken(value: Value) | Refused(why: Objection)

  datatype Chars = Chars(text: string) | Stops(why: Objection)

  function Then(c: char, r: Chars): Chars {
    if r.Chars? then Chars([c] + r.text) else r
  }

  /** A string of the grammar. An escaped pair of hexadecimal digits is one octet; an octet
      that is only part of a character is not put together with its neighbours. */
  function GrammarChars(s: string): Chars
    decreases |s|
  {
    if s == "" then Chars("")
    else if s[0] == '\\' then
      if |s| >= 2 && s[1] in ESCAPABLE then Then(s[1], GrammarChars(s[2..]))
      else if |s| >= 3 && Nibble(s[1]).Some? && Nibble(s[2]).Some? then
        var octet := Nibble(s[1]).value * 16 + Nibble(s[2]).value;
        if octet < 128 then Then(octet as char, GrammarChars(s[3..])) else Stops(PartOfCharacter)
      else Stops(BadEscape)
    else if s[0] == NUL then Stops(BareNul)
    else if s[0] in SPECIAL then Stops(BareSpecial)
    else if s == " " then Stops(BareSpace)
    else Then(s[0], GrammarChars(s[1..]))
  }

  function GrammarValue(s: string): Grammar {
    if s != "" && s[0] == '#' then
      var der := ReadHex(s[1..]);
      if |s| > 1 && der.Some? then Taken(Encoded(der.value)) else Refused(NotHex)
    else if s != "" && s[0] == ' ' then Refused(BareSpace)
    else
      match GrammarChars(s)
      case Chars(text) => Taken(Text(text))
      case Stops(why) => Refused(why)
  }

  lemma {:induction false} GrammarReadBack(text: string, i: nat)
    requires i <= |text|
    ensures GrammarChars(PrintedFrom(text, i)) == if NUL in text[i..] then Stops(BareNul) else Chars(text[i..])
    decreases |text| - i
  {
    if i < |text| {
      GrammarReadBack(text, i + 1);
      var rest := PrintedFrom(text, i + 1);
      var s := PrintedFrom(text, i);
      assert s == (if Escaped(text, i) then ['\\', text[i]] else [text[i]]) + rest;
      assert s[if Escaped(text, i) then 2 else 1..] == rest;
      assert i + 1 < |text| ==> rest != "";
      assert text[i..] == [text[i]] + text[i + 1..];
    } else {
      assert text[i..] == "";
    }
  }

  /** Text is written so that the grammar gives it back exactly when it holds no U+0000, and
      bytes exactly when there are any; what can be written down in neither way is never
      in the grammar. What the grammar does not give back it refuses: it takes no value for
      another. */
  lemma GrammarTakes(v: Value)
    ensures var r := GrammarValue(PrintedValue(v));
            match v
            case Text(text) => r == if NUL in text then Refused(BareNul) else Taken(v)
            case Encoded(der) => r == if der == [] then Refused(NotHex) else Taken(v)
            case Unreadable => r == Refused(NotHex)
  {
    match v
    case Text(text) =>
      hide GrammarChars;
      GrammarReadBack(text, 0);
      assert text[0..] == text;
      assert text != "" ==> PrintedFrom(text, 0)[0] == if Escaped(text, 0) then '\\' else text[0];
    case Encoded(der) =>
      hide ReadHex;
      HexReadBack(der);
      assert ("#" + Hex(der))[1..] == Hex(der);
      assert der == [] <==> Hex(der) == "";
    case Unreadable => NotHexDigits();
  }

  lemma NotHexDigits()
    ensures ReadHex("#unreadable"[1..]) == None
  {
    assert "#unreadable"[1..][0] == 'u';
  }

  /** The one character the RFC has escaped that is printed as it is: such text is refused,
      though it can still be told from every other. */
  lemma NulRefused()
    ensures PrintedValue(Text([NUL])) == [NUL]
    ensures GrammarValue([NUL]) == Refused(BareNul) && ReadValue([NUL]) == Some(Text([NUL]))
  {
    GrammarTakes(Text([NUL]));
    TextReadBack([NUL]);
    assert PrintedFrom([NUL], 1) == "";
  }
}
