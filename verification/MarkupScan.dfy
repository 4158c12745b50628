/** What the scanner reads from the text ahead of its cursor (internal/markup/scan.go), as
    functions of that text. */
module MarkupScan {
  import opened Ascii
  import opened Bytes
  import opened Options

  const OPEN_COMMENT: bytes := [BANG, DASH, DASH]
  const CLOSE_COMMENT: bytes := [DASH, DASH, GREATER]

  const RAW_TEXT: set<bytes> := {
    Text("script"), Text("style"), Text("textarea"), Text("title"), Text("noscript"),
    Text("noembed"), Text("noframes"), Text("plaintext"), Text("xmp")
  }

  datatype Tag = Tag(name: bytes, attr: map<bytes, bytes>)

  /** Lower-casing, of which the scanner needs that it leaves no name empty. */
  type Lowering = f: bytes -> bytes | forall s: bytes :: s != [] ==> f(s) != [] witness (s: bytes) => s

  /** The two library functions names and values go through. */
  datatype Library = Library(lower: Lowering, unescape: bytes -> bytes)

  function Lowered(lib: Library, name: bytes): (r: bytes)
    ensures name != [] ==> r != []
  {
    lib.lower(name)
  }

  function Unescaped(lib: Library, value: bytes): bytes {
    lib.unescape(value)
  }

  predicate IsSpace(c: byte) {
    c == SPACE || c == TAB || c == NEWLINE || c == RETURN || c == FORM_FEED
  }

  predicate IsTagNameEnd(c: byte) {
    IsSpace(c) || c == GREATER || c == SLASH
  }

  predicate IsAttrNameEnd(c: byte) {
    IsSpace(c) || c == EQUALS || c == GREATER || c == SLASH
  }

  predicate IsUnquotedEnd(c: byte) {
    IsSpace(c) || c == GREATER
  }

  predicate NotSpace(c: byte) {
    !IsSpace(c)
  }

  function Only(q: byte): byte -> bool {
    c => c == q
  }

  // ---- Searching ----

  /** Where `sep` first occurs in `s`; -1 when it does not. */
  function Index(s: bytes, sep: bytes): (j: int)
    ensures -1 <= j && (j >= 0 ==> j + |sep| <= |s|)
  {
    if |s| < |sep| then -1
    else if s[..|sep|] == sep then 0
    else if s == [] then -1
    else
      var j := Index(s[1..], sep);
      if j < 0 then -1 else j + 1
  }

  function IndexFold(haystack: bytes, needle: bytes): (j: int)
    ensures -1 <= j && (j >= 0 ==> j + |needle| <= |haystack|)
  {
    Index(Folded(haystack), Folded(needle))
  }

  /** How far it is past the next `sep`, or to the end when there is none. */
  function PastNext(s: bytes, sep: bytes): (n: nat)
    ensures n <= |s|
  {
    var j := Index(s, sep);
    if j < 0 then |s| else j + |sep|
  }

  /** How many bytes come before the first that stops. */
  function Span(s: bytes, stop: byte -> bool): (n: nat)
    ensures n <= |s|
    ensures n < |s| ==> stop(s[n])
    ensures forall i :: 0 <= i < n ==> !stop(s[i])
  {
    if s == [] || stop(s[0]) then 0 else 1 + Span(s[1..], stop)
  }

  // ---- Raw text ----

  function EndTag(name: bytes): bytes {
    [LESS, SLASH] + name
  }

  /** The closing tag of `name` starts here: in any case, and the name ends there. */
  predicate ClosesHere(s: bytes, name: bytes) {
    var want := EndTag(name);
    |want| <= |s| && Folded(s[..|want|]) == Folded(want) && (|s| == |want| || IsTagNameEnd(s[|want|]))
  }

  /** How far it is past the name in the first closing tag, or to the end when there is none. */
  function PastEndTag(s: bytes, name: bytes): (n: nat)
    ensures n <= |s| && (n < |s| ==> |EndTag(name)| <= n)
  {
    if s == [] then 0
    else if ClosesHere(s, name) then |EndTag(name)|
    else 1 + PastEndTag(s[1..], name)
  }

  // ---- Attributes ----

  datatype Attr = Attr(key: bytes, value: bytes)

  datatype ValueRead = ValueRead(value: bytes, read: nat)

  datatype AttrRead = AttrRead(attr: Attr, read: nat)

  datatype AttrsRead = AttrsRead(attrs: seq<Attr>, closing: bool, read: nat)

  datatype TagRead = TagRead(tag: Option<Tag>, closing: bool, read: nat)

  /** What follows an "=", quoted or not, and how many bytes it took. */
  function ReadValue(s: bytes, lib: Library): (r: ValueRead)
    ensures r.read <= |s|
  {
    if s == [] then ValueRead([], 0)
    else if s[0] == DOUBLE_QUOTE || s[0] == SINGLE_QUOTE then
      var n := 1 + Span(s[1..], Only(s[0]));
      ValueRead(Unescaped(lib, s[1..n]), if n < |s| then n + 1 else n)
    else
      var n := Span(s, IsUnquotedEnd);
      ValueRead(Unescaped(lib, s[..n]), n)
  }

  /** What follows a name: the value it is given, if any, and how many bytes were read. */
  function ReadGiven(s: bytes, lib: Library): (r: ValueRead)
    ensures r.read <= |s|
  {
    var eq := Span(s, NotSpace);
    if eq == |s| || s[eq] != EQUALS then ValueRead([], eq)
    else
      var v := eq + 1 + Span(s[eq + 1..], NotSpace);
      var given := ReadValue(s[v..], lib);
      ValueRead(given.value, v + given.read)
  }

  /** One name and its value, and how many bytes they took. */
  function ReadAttr(s: bytes, lib: Library): (r: AttrRead)
    ensures r.read <= |s| && (r.attr.key == [] <==> r.read == 0)
  {
    var n := Span(s, IsAttrNameEnd);
    if n == 0 then AttrRead(Attr([], []), 0)
    else
      var given := ReadGiven(s[n..], lib);
      AttrRead(Attr(Lowered(lib, s[..n]), given.value), n + given.read)
  }

  /** The attributes up to the end of the tag, in order, whether it closes itself, and how
      many bytes were read. A byte no attribute can start with is stepped over. */
  function ReadAttrs(s: bytes, lib: Library): (r: AttrsRead)
    ensures r.read <= |s| && (s != [] ==> r.read > 0)
    ensures Span(s, NotSpace) < r.read || Span(s, NotSpace) == r.read == |s|
    decreases |s|
  {
    var k := Span(s, NotSpace);
    if k == |s| then AttrsRead([], false, k)
    else if s[k] == GREATER then AttrsRead([], false, k + 1)
    else if s[k] == SLASH then
      if k + 1 < |s| && s[k + 1] == GREATER then AttrsRead([], true, k + 2)
      else Passed(k + 1, ReadAttrs(s[k + 1..], lib))
    else
      var r := ReadAttr(s[k..], lib);
      if r.read == 0 then Passed(k + 1, ReadAttrs(s[k + 1..], lib))
      else Added(r.attr, Passed(k + r.read, ReadAttrs(s[k + r.read..], lib)))
  }

  function Passed(n: nat, r: AttrsRead): AttrsRead {
    r.(read := n + r.read)
  }

  function Added(attr: Attr, r: AttrsRead): AttrsRead {
    r.(attrs := [attr] + r.attrs)
  }

  lemma AttrsHere(s: bytes, lib: Library, k: nat)
    requires k == Span(s, NotSpace)
    ensures k == |s| ==> ReadAttrs(s, lib) == AttrsRead([], false, k)
    ensures k < |s| && s[k] == GREATER ==> ReadAttrs(s, lib) == AttrsRead([], false, k + 1)
    ensures k < |s| && s[k] == SLASH ==>
              ReadAttrs(s, lib) ==
              if k + 1 < |s| && s[k + 1] == GREATER then AttrsRead([], true, k + 2)
              else Passed(k + 1, ReadAttrs(s[k + 1..], lib))
  {
    hide Span, ReadAttr, NotSpace, Passed, Added;
  }

  lemma AttrHere(s: bytes, lib: Library, k: nat)
    requires k == Span(s, NotSpace) < |s| && s[k] != GREATER && s[k] != SLASH
    ensures var r := ReadAttr(s[k..], lib);
            ReadAttrs(s, lib) ==
            if r.read == 0 then Passed(k + 1, ReadAttrs(s[k + 1..], lib))
            else Added(r.attr, Passed(k + r.read, ReadAttrs(s[k + r.read..], lib)))
  {
    hide Span, ReadAttr, NotSpace, Passed, Added;
  }

  /** The first attribute of each name. */
  function FirstOfEach(attrs: seq<Attr>): map<bytes, bytes> {
    if attrs == [] then map[] else FirstOfEach(attrs[1..])[attrs[0].key := attrs[0].value]
  }

  /** A repeated attribute is left at its first value. */
  lemma {:induction false} FirstWins(attrs: seq<Attr>, more: seq<Attr>)
    ensures FirstOfEach(attrs + more) == FirstOfEach(more) + FirstOfEach(attrs)
  {
    if attrs == [] {
      assert attrs + more == more;
    } else {
      assert (attrs + more)[1..] == attrs[1..] + more;
      FirstWins(attrs[1..], more);
    }
  }

  /** A start tag from just after its "<", and how many bytes it took; none when no name
      can start there. */
  function ReadTag(s: bytes, lib: Library): (r: TagRead)
    ensures r.read <= |s|
    ensures r.tag.Some? <==> r.read > 0
  {
    var n := Span(s, IsTagNameEnd);
    if n == 0 then TagRead(None, false, 0)
    else
      var r := ReadAttrs(s[n..], lib);
      TagRead(Some(Tag(Lowered(lib, s[..n]), FirstOfEach(r.attrs))), r.closing, n + r.read)
  }

  // ---- From one "<" to the next ----

  /** A "<" was dealt with: the tag it started, if it did, and how many bytes were read. */
  datatype Step = Stop | Step(found: Option<Tag>, read: nat)

  function AfterLess(t: bytes, lib: Library): (r: Step)
    ensures r.Step? && r.read <= |t| && (r.found.Some? ==> r.read > 0)
  {
    if OPEN_COMMENT <= t then Step(None, 3 + PastNext(t[3..], CLOSE_COMMENT))
    else if t != [] && t[0] in [BANG, QUESTION, SLASH] then Step(None, PastNext(t, [GREATER]))
    else
      var r := ReadTag(t, lib);
      if r.tag.Some? && r.tag.value.name in RAW_TEXT && !r.closing then
        Step(r.tag, r.read + PastEndTag(t[r.read..], r.tag.value.name))
      else Step(r.tag, r.read)
  }

  function NextStep(s: bytes, lib: Library): (r: Step)
    ensures r.Step? ==> 0 < r.read <= |s| && (r.found.Some? ==> r.read >= 2)
  {
    var j := Index(s, [LESS]);
    if j < 0 then Stop
    else
      var r := AfterLess(s[j + 1..], lib);
      Step(r.found, j + 1 + r.read)
  }

  /** All the tags, in order. */
  function Tags(s: bytes, lib: Library): (tags: seq<Tag>)
    ensures 2 * |tags| <= |s|
    decreases |s|
  {
    var step := NextStep(s, lib);
    if step.Stop? then []
    else if step.found.Some? then [step.found.value] + Tags(s[step.read..], lib)
    else Tags(s[step.read..], lib)
  }

  lemma TagsHere(s: bytes, lib: Library)
    ensures var step := NextStep(s, lib);
            if step.Stop? then Tags(s, lib) == []
            else if step.found.Some? then Tags(s, lib) == [step.found.value] + Tags(s[step.read..], lib)
            else Tags(s, lib) == Tags(s[step.read..], lib)
  {
    hide NextStep;
  }

  lemma StepHere(s: bytes, lib: Library)
    ensures var j := Index(s, [LESS]);
            NextStep(s, lib) ==
            if j < 0 then Stop
            else Step(AfterLess(s[j + 1..], lib).found, j + 1 + AfterLess(s[j + 1..], lib).read)
  {
    hide Index, AfterLess;
  }
}
