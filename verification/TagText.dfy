/** Reading back a tag that was written out (internal/markup/scan.go:143-238).

    The bytes that part names, attributes and values are written here as the numbers they are.
 */
module TagText {
  import opened Bytes
  import opened Options
  import opened MarkupScan

  /** A tab, a line feed, a form feed, a carriage return or a space. */
  predicate Blank(c: byte) {
    c == 9 || c == 10 || c == 12 || c == 13 || c == 32
  }

  predicate Blanks(s: bytes) {
    forall i :: 0 <= i < |s| ==> Blank(s[i])
  }

  /** How a value is given: not at all, bare, or between quotes of one kind. */
  datatype Form = Alone | Bare | InSingle | InDouble

  /** An attribute as somebody wrote it: the blanks before it and around its "=". */
  datatype Written = Written(gap: bytes, key: bytes, before: bytes, after: bytes, form: Form, value: bytes)

  /** A tag from just after its "<": its attributes, the blanks before its end, and whether it ends "/>". */
  datatype Start = Start(name: bytes, attrs: seq<Written>, gap: bytes, selfClosing: bool)

  predicate WritableName(name: bytes) {
    name != [] && forall i :: 0 <= i < |name| ==> !Blank(name[i]) && name[i] != 62 && name[i] != 47
  }

  predicate WritableValue(form: Form, value: bytes) {
    match form
    case Alone => value == []
    case Bare =>
      && value != [] && value[0] != 34 && value[0] != 39
      && forall i :: 0 <= i < |value| ==> !Blank(value[i]) && value[i] != 62
    case InSingle => 39 !in value
    case InDouble => 34 !in value
  }

  predicate WritableAttr(w: Written) {
    && w.gap != [] && Blanks(w.gap) && Blanks(w.before) && Blanks(w.after)
    && WritableName(w.key) && 61 !in w.key
    && WritableValue(w.form, w.value)
  }

  /** Only a bare value needs a blank between it and a "/>". */
  predicate WritableStart(start: Start) {
    && WritableName(start.name) && Blanks(start.gap)
    && (forall w :: w in start.attrs ==> WritableAttr(w))
    && (start.selfClosing && start.attrs != [] && start.attrs[|start.attrs| - 1].form.Bare? ==> start.gap != [])
  }

  function ValueText(form: Form, value: bytes): bytes {
    match form
    case Alone => []
    case Bare => value
    case InSingle => [39] + value + [39]
    case InDouble => [34] + value + [34]
  }

  function AttrText(w: Written): bytes {
    if w.form.Alone? then w.key else w.key + (w.before + ([61] + (w.after + ValueText(w.form, w.value))))
  }

  function AttrsText(attrs: seq<Written>, gap: bytes, selfClosing: bool): bytes {
    if attrs == [] then gap + if selfClosing then [47, 62] else [62]
    else attrs[0].gap + (AttrText(attrs[0]) + AttrsText(attrs[1..], gap, selfClosing))
  }

  function StartText(start: Start): bytes {
    start.name + AttrsText(start.attrs, start.gap, start.selfClosing)
  }

  function AttrAsRead(w: Written, lib: Library): Attr {
    Attr(lib.lower(w.key), if w.form.Alone? then [] else lib.unescape(w.value))
  }

  /** What a reader makes of attributes: names in lower case, references decoded. */
  function AsRead(attrs: seq<Written>, lib: Library): seq<Attr> {
    if attrs == [] then [] else [AttrAsRead(attrs[0], lib)] + AsRead(attrs[1..], lib)
  }

  // ---- Spans ----

  lemma {:induction false} SpanIs(p: bytes, t: bytes, stop: byte -> bool)
    requires (forall i :: 0 <= i < |p| ==> !stop(p[i])) && (t == [] || stop(t[0]))
    ensures Span(p + t, stop) == |p|
  {
    if p == [] {
      assert p + t == t;
    } else {
      assert (p + t)[1..] == p[1..] + t;
      SpanIs(p[1..], t, stop);
    }
  }

  lemma GapIs(gap: bytes, x: bytes)
    requires Blanks(gap) && x != [] && !Blank(x[0])
    ensures Span(gap + x, NotSpace) == |gap| && Span(x, NotSpace) == 0
  {
    SpanIs(gap, x, NotSpace);
  }

  lemma Cut(p: bytes, t: bytes)
    ensures (p + t)[|p|..] == t && (p + t)[..|p|] == p
    ensures p != [] ==> (p + t)[0] == p[0]
    ensures p == [] ==> p + t == t
  {}

  lemma CutLater(p: bytes, t: bytes, n: nat)
    requires n <= |t|
    ensures (p + t)[|p| + n..] == t[n..]
    ensures n < |t| ==> (p + t)[|p| + n] == t[n]
  {}

  lemma Regroup(p: bytes, q: bytes, t: bytes)
    ensures p + q + t == p + (q + t)
  {}

  // ---- Values ----

  /** Where a value of this form may end. */
  predicate EndsValue(form: Form, more: bytes) {
    form.Bare? ==> more != [] && (Blank(more[0]) || more[0] == 62)
  }

  lemma QuotedReadBack(q: byte, value: bytes, more: bytes, lib: Library)
    requires (q == 34 || q == 39) && q !in value
    ensures ReadValue([q] + value + [q] + more, lib) == ValueRead(lib.unescape(value), |value| + 2)
  {
    hide Span;
    var rest := [q] + more;
    Regroup([q] + value, [q], more);
    Regroup([q], value, rest);
    var s := [q] + (value + rest);
    Cut([q], value + rest);
    SpanIs(value, rest, Only(q));
    assert s[1..1 + |value|] == value;
  }

  lemma ValueReadBack(form: Form, value: bytes, more: bytes, lib: Library)
    requires WritableValue(form, value) && !form.Alone? && EndsValue(form, more)
    ensures ReadValue(ValueText(form, value) + more, lib) == ValueRead(lib.unescape(value), |ValueText(form, value)|)
  {
    hide Span, ReadValue;
    if form.Bare? {
      BareReadBack(value, more, lib);
    } else {
      QuotedReadBack(if form.InSingle? then 39 else 34, value, more, lib);
    }
  }

  lemma BareReadBack(value: bytes, more: bytes, lib: Library)
    requires WritableValue(Bare, value) && EndsValue(Bare, more)
    ensures ReadValue(value + more, lib) == ValueRead(lib.unescape(value), |value|)
  {
    hide Span;
    SpanIs(value, more, IsUnquotedEnd);
    Cut(value, more);
  }

  lemma GivenReadBack(w: Written, more: bytes, lib: Library)
    requires WritableAttr(w) && !w.form.Alone? && EndsValue(w.form, more)
    ensures var text := w.before + ([61] + (w.after + ValueText(w.form, w.value)));
            ReadGiven(text + more, lib) == ValueRead(lib.unescape(w.value), |text|)
  {
    hide Span, ReadValue, ReadGiven, WritableValue, EndsValue, ValueText;
    var value := ValueText(w.form, w.value) + more;
    ValueStarts(w.form, w.value, more);
    Regroup(w.after, ValueText(w.form, w.value), more);
    Regroup([61], w.after + ValueText(w.form, w.value), more);
    Regroup(w.before, [61] + (w.after + ValueText(w.form, w.value)), more);
    GapIs(w.before, [61] + (w.after + value));
    GapIs(w.after, value);
    ValueReadBack(w.form, w.value, more, lib);
    GivenAt(w.before + ([61] + (w.after + value)), w.before, w.after, value, lib);
  }

  lemma ValueStarts(form: Form, value: bytes, more: bytes)
    requires WritableValue(form, value) && !form.Alone?
    ensures var s := ValueText(form, value) + more;
            s != [] && !Blank(s[0])
  {}

  /** A value as it is given: an "=" with blanks around it, and the value. */
  predicate Gives(s: bytes, before: bytes, after: bytes, value: bytes) {
    s == before + ([61] + (after + value))
  }

  lemma GivenAt(s: bytes, before: bytes, after: bytes, value: bytes, lib: Library)
    requires Gives(s, before, after, value)
    requires Span(s, NotSpace) == |before| && Span(after + value, NotSpace) == |after|
    ensures var r := ReadValue(value, lib);
            ReadGiven(s, lib) == ValueRead(r.value, |before| + 1 + |after| + r.read)
  {
    hide Span, ReadValue, ReadGiven, NotSpace, Gives;
    GivenParts(s, before, after, value);
    GivenFrom(s, |before|, after + value, |after|, value, lib);
  }

  lemma GivenParts(s: bytes, before: bytes, after: bytes, value: bytes)
    requires Gives(s, before, after, value)
    ensures |s| == |before| + 1 + |after| + |value| && s[|before|] == 61
    ensures s[|before| + 1..] == after + value
    ensures s[|before| + 1 + |after|..] == value
  {
    var more := [61] + (after + value);
    CutLater(before, more, 0);
    CutLater(before, more, 1);
    CutLater(before, more, 1 + |after|);
    Cut([61], after + value);
    CutLater([61], after + value, |after|);
    Cut(after, value);
  }

  lemma GivenFrom(s: bytes, eq: nat, more: bytes, at: nat, value: bytes, lib: Library)
    requires eq == Span(s, NotSpace) < |s| && s[eq] == 61 && s[eq + 1..] == more
    requires at == Span(more, NotSpace) && eq + 1 + at <= |s| && s[eq + 1 + at..] == value
    ensures ReadGiven(s, lib) == ValueRead(ReadValue(value, lib).value, eq + 1 + at + ReadValue(value, lib).read)
  {
    hide Span, ReadValue, ReadGiven, NotSpace;
    assert Span(s[eq + 1..], NotSpace) == at;
    GivenHere(s, eq, eq + 1 + at, lib);
  }

  lemma GivenHere(s: bytes, eq: nat, v: nat, lib: Library)
    requires eq == Span(s, NotSpace) < |s| && s[eq] == 61 && v == eq + 1 + Span(s[eq + 1..], NotSpace)
    ensures ReadGiven(s, lib) == ValueRead(ReadValue(s[v..], lib).value, v + ReadValue(s[v..], lib).read)
  {
    hide Span, ReadValue, NotSpace;
  }

  lemma NoneGiven(gap: bytes, x: bytes, lib: Library)
    requires Blanks(gap) && x != [] && !Blank(x[0]) && x[0] != 61
    ensures ReadGiven(gap + x, lib) == ValueRead([], |gap|)
  {
    hide Span;
    GapIs(gap, x);
  }

  // ---- Attributes ----

  /** What may follow an attribute: blanks, then something that is neither blank nor "=". */
  predicate Follows(w: Written, gap: bytes, x: bytes) {
    && Blanks(gap) && x != [] && !Blank(x[0]) && x[0] != 61
    && (gap == [] ==> x[0] == 62 || (x[0] == 47 && !w.form.Bare?))
  }

  /** Everything of an attribute that stands after its name. */
  function GivenText(w: Written): bytes {
    if w.form.Alone? then [] else w.before + ([61] + (w.after + ValueText(w.form, w.value)))
  }

  lemma NameEndsThere(w: Written, gap: bytes, x: bytes)
    requires WritableAttr(w) && Follows(w, gap, x)
    ensures var rest := GivenText(w) + (gap + x);
            rest != [] && IsAttrNameEnd(rest[0]) && AttrText(w) + (gap + x) == w.key + rest
    ensures AttrText(w) == w.key + GivenText(w)
    ensures EndsValue(w.form, gap + x)
  {
    hide ValueText, WritableValue;
    Cut(gap, x);
    Cut(GivenText(w), gap + x);
    Regroup(w.key, GivenText(w), gap + x);
    if !w.form.Alone? {
      Cut(w.before, [61] + (w.after + ValueText(w.form, w.value)));
    }
  }

  lemma AttrReadBack(w: Written, gap: bytes, x: bytes, lib: Library)
    requires WritableAttr(w) && Follows(w, gap, x)
    ensures ReadAttr(AttrText(w) + (gap + x), lib) ==
            AttrRead(AttrAsRead(w, lib), |AttrText(w)| + if w.form.Alone? then |gap| else 0)
  {
    hide Span, ReadGiven, ValueText, WritableValue, AttrText;
    var more := gap + x;
    var rest := GivenText(w) + more;
    NameEndsThere(w, gap, x);
    SpanIs(w.key, rest, IsAttrNameEnd);
    Cut(w.key, rest);
    if w.form.Alone? {
      assert rest == more;
      NoneGiven(gap, x, lib);
    } else {
      GivenReadBack(w, more, lib);
    }
  }

  lemma EndPassed(gap: bytes, x: bytes, lib: Library)
    requires Blanks(gap) && x != [] && (x[0] == 62 || x[0] == 47)
    ensures ReadAttrs(gap + x, lib) == Passed(|gap|, ReadAttrs(x, lib))
  {
    hide Span, ReadAttr, ReadAttrs, NotSpace;
    GapIs(gap, x);
    Cut(gap, x);
    CutLater(gap, x, 0);
    CutLater(gap, x, 1);
    AttrsHere(gap + x, lib, |gap|);
    AttrsHere(x, lib, 0);
  }

  lemma PassedTwice(attr: Attr, k: nat, n: nat, r: AttrsRead)
    ensures Passed(k + n, r) == Passed(k, Passed(n, r))
    ensures Added(attr, Passed(k + n, r)) == Passed(k, Added(attr, Passed(n, r)))
  {}

  lemma AttrAhead(s: bytes, k: nat, lib: Library)
    requires k == Span(s, NotSpace) < |s| && s[k] != 62 && s[k] != 47 && ReadAttr(s[k..], lib).read > 0
    ensures var r := ReadAttr(s[k..], lib);
            ReadAttrs(s, lib) == Added(r.attr, Passed(k + r.read, ReadAttrs(s[k + r.read..], lib)))
  {
    hide Span, ReadAttr, ReadAttrs, NotSpace, Passed, Added;
    AttrHere(s, lib, k);
  }

  lemma AttrFirst(s: bytes, lib: Library)
    requires s != [] && !Blank(s[0]) && s[0] != 62 && s[0] != 47 && ReadAttr(s, lib).read > 0
    ensures var r := ReadAttr(s, lib);
            ReadAttrs(s, lib) == Added(r.attr, Passed(r.read, ReadAttrs(s[r.read..], lib)))
  {
    hide Span, ReadAttr, ReadAttrs, Passed, Added;
    GapIs([], s);
    assert s[0..] == s;
    AttrAhead(s, 0, lib);
  }

  lemma AttrPassed(gap: bytes, x: bytes, lib: Library)
    requires Blanks(gap) && x != [] && !Blank(x[0]) && x[0] != 62 && x[0] != 47 && ReadAttr(x, lib).read > 0
    ensures ReadAttrs(gap + x, lib) == Passed(|gap|, ReadAttrs(x, lib))
  {
    hide Span, ReadAttr, ReadAttrs, NotSpace, Passed, Added, Blanks;
    GapIs(gap, x);
    CutLater(gap, x, 0);
    CutLater(gap, x, ReadAttr(x, lib).read);
    AheadPassed(gap + x, |gap|, x, ReadAttr(x, lib), lib);
  }

  lemma AheadPassed(s: bytes, k: nat, x: bytes, r: AttrRead, lib: Library)
    requires k == Span(s, NotSpace) < |s| && |s| == k + |x|
    requires x != [] && s[k] == x[0] && !Blank(x[0]) && x[0] != 62 && x[0] != 47
    requires s[k..] == x && r == ReadAttr(x, lib) && r.read > 0 && s[k + r.read..] == x[r.read..]
    ensures ReadAttrs(s, lib) == Passed(k, ReadAttrs(x, lib))
  {
    hide Span, ReadAttr, ReadAttrs, NotSpace, Passed, Added, Blank, IsSpace;
    var more := ReadAttrs(x[r.read..], lib);
    assert ReadAttrs(x, lib) == Added(r.attr, Passed(r.read, more)) by {
      AttrFirst(x, lib);
    }
    assert ReadAttrs(s, lib) == Added(r.attr, Passed(k + r.read, more)) by {
      AttrAhead(s, k, lib);
    }
    PassedTwice(r.attr, k, r.read, more);
  }

  lemma GapPassed(gap: bytes, x: bytes, lib: Library)
    requires Blanks(gap) && x != [] && !Blank(x[0]) && x[0] != 61
    ensures ReadAttrs(gap + x, lib) == Passed(|gap|, ReadAttrs(x, lib))
  {
    hide Span, ReadAttr, ReadAttrs, NotSpace, Passed;
    if x[0] == 62 || x[0] == 47 {
      EndPassed(gap, x, lib);
    } else {
      NameAhead(x, lib);
      AttrPassed(gap, x, lib);
    }
  }

  lemma NameAhead(x: bytes, lib: Library)
    requires x != [] && !IsAttrNameEnd(x[0])
    ensures ReadAttr(x, lib).read > 0
  {}

  /** The blanks after an attribute that stands alone are read with it. */
  lemma AttrThen(w: Written, gap: bytes, x: bytes, lib: Library)
    requires WritableAttr(w) && Follows(w, gap, x)
    ensures ReadAttrs(AttrText(w) + (gap + x), lib) ==
            Added(AttrAsRead(w, lib), Passed(|AttrText(w)|, ReadAttrs(gap + x, lib)))
  {
    hide Span, ReadAttr, ReadAttrs, WritableAttr, AttrAsRead, AttrText, Passed, Added;
    var text := AttrText(w);
    KeyFirst(w);
    CutBoth(text, gap, x);
    AttrReadBack(w, gap, x, lib);
    AttrFirst(text + (gap + x), lib);
    if w.form.Alone? {
      GapPassed(gap, x, lib);
      PassedTwice(AttrAsRead(w, lib), |text|, |gap|, ReadAttrs(x, lib));
    }
  }

  lemma CutBoth(p: bytes, q: bytes, t: bytes)
    requires p != []
    ensures var s := p + (q + t);
            s[0] == p[0] && s[|p|..] == q + t && s[|p| + |q|..] == t
  {
    CutLater(p, q + t, |q|);
    Cut(q, t);
  }

  /** An attribute is read as it was written, and what follows it as if it stood alone. */
  lemma OneMore(w: Written, gap: bytes, x: bytes, lib: Library)
    requires WritableAttr(w) && Follows(w, gap, x)
    ensures ReadAttrs(w.gap + (AttrText(w) + (gap + x)), lib) ==
            Added(AttrAsRead(w, lib), Passed(|w.gap| + |AttrText(w)|, ReadAttrs(gap + x, lib)))
  {
    hide Span, ReadAttr, ReadAttrs, WritableAttr, AttrAsRead, AttrText, Follows, Passed, Added;
    KeyFirst(w);
    Cut(AttrText(w), gap + x);
    GapPassed(w.gap, AttrText(w) + (gap + x), lib);
    AttrThen(w, gap, x, lib);
    PassedTwice(AttrAsRead(w, lib), |w.gap|, |AttrText(w)|, ReadAttrs(gap + x, lib));
  }

  lemma KeyFirst(w: Written)
    requires WritableAttr(w)
    ensures AttrText(w) != [] && AttrText(w)[0] == w.key[0]
    ensures !Blank(w.key[0]) && w.key[0] != 62 && w.key[0] != 47 && w.key[0] != 61
    ensures w.gap != [] && Blanks(w.gap)
  {
    hide ValueText, WritableValue;
  }

  /** The first of what is left, after its blanks. */
  lemma Shape(attrs: seq<Written>, gap: bytes, selfClosing: bool) returns (first: bytes, x: bytes)
    requires Blanks(gap) && forall w :: w in attrs ==> WritableAttr(w)
    ensures AttrsText(attrs, gap, selfClosing) == first + x && Blanks(first)
    ensures x != [] && !Blank(x[0]) && x[0] != 61
    ensures if attrs == [] then first == gap && x[0] == (if selfClosing then 47 else 62)
            else first == attrs[0].gap && first != []
  {
    hide AttrText, WritableAttr;
    if attrs == [] {
      first, x := gap, if selfClosing then [47, 62] else [62];
    } else {
      first, x := attrs[0].gap, AttrText(attrs[0]) + AttrsText(attrs[1..], gap, selfClosing);
      assert attrs[0] in attrs;
      KeyFirst(attrs[0]);
    }
  }

  lemma EndReadBack(gap: bytes, selfClosing: bool, tail: bytes, lib: Library)
    requires Blanks(gap)
    ensures var text := AttrsText([], gap, selfClosing);
            ReadAttrs(text + tail, lib) == AttrsRead([], selfClosing, |text|)
  {
    hide Span, ReadAttrs;
    var close: bytes := if selfClosing then [47, 62] else [62];
    var x := close + tail;
    Regroup(gap, close, tail);
    Cut(close, tail);
    GapPassed(gap, x, lib);
    GapIs(gap, x);
    AttrsHere(x, lib, 0);
    assert selfClosing ==> x[1] == 62;
  }

  lemma {:induction false} AttrsReadBack(attrs: seq<Written>, gap: bytes, selfClosing: bool, tail: bytes, lib: Library)
    requires Blanks(gap) && forall w :: w in attrs ==> WritableAttr(w)
    requires selfClosing && attrs != [] && attrs[|attrs| - 1].form.Bare? ==> gap != []
    ensures ReadAttrs(AttrsText(attrs, gap, selfClosing) + tail, lib) ==
            AttrsRead(AsRead(attrs, lib), selfClosing, |AttrsText(attrs, gap, selfClosing)|)
  {
    hide Span, ReadAttrs, AttrText, ValueText, WritableAttr, AttrAsRead, AttrsText, Blanks, Passed, Added;
    if attrs == [] {
      EndReadBack(gap, selfClosing, tail, lib);
    } else {
      assert forall w :: w in attrs[1..] ==> w in attrs;
      AttrsReadBack(attrs[1..], gap, selfClosing, tail, lib);
      FirstReadBack(attrs, gap, selfClosing, tail, lib);
      AddedPassed(attrs, gap, selfClosing, lib);
    }
  }

  lemma AddedPassed(attrs: seq<Written>, gap: bytes, selfClosing: bool, lib: Library)
    requires attrs != []
    ensures var rest := AttrsText(attrs[1..], gap, selfClosing);
            Added(AttrAsRead(attrs[0], lib),
                  Passed(|attrs[0].gap| + |AttrText(attrs[0])|,
                      AttrsRead(AsRead(attrs[1..], lib), selfClosing, |rest|)))
            == AttrsRead(AsRead(attrs, lib), selfClosing, |AttrsText(attrs, gap, selfClosing)|)
  {
    hide AttrText, AttrAsRead;
  }

  lemma FirstReadBack(attrs: seq<Written>, gap: bytes, selfClosing: bool, tail: bytes, lib: Library)
    requires attrs != [] && Blanks(gap) && forall w :: w in attrs ==> WritableAttr(w)
    requires selfClosing && attrs[|attrs| - 1].form.Bare? ==> gap != []
    ensures ReadAttrs(AttrsText(attrs, gap, selfClosing) + tail, lib) ==
            Added(AttrAsRead(attrs[0], lib),
                  Passed(|attrs[0].gap| + |AttrText(attrs[0])|,
                         ReadAttrs(AttrsText(attrs[1..], gap, selfClosing) + tail, lib)))
  {
    hide Span, ReadAttrs, AttrText, AttrsText, WritableAttr, AttrAsRead, Passed, Added, Blanks, Follows;
    var w := attrs[0];
    assert w in attrs && forall other :: other in attrs[1..] ==> other in attrs;
    var first, x := Shape(attrs[1..], gap, selfClosing);
    FollowsFirst(attrs, gap, selfClosing, first, x);
    FollowsMore(w, first, x, tail);
    FirstText(attrs, gap, selfClosing, first, x, tail);
    OneMore(w, first, x + tail, lib);
  }

  lemma FollowsMore(w: Written, first: bytes, x: bytes, tail: bytes)
    requires Follows(w, first, x)
    ensures Follows(w, first, x + tail)
  {
    Cut(x, tail);
  }

  lemma FirstText(attrs: seq<Written>, gap: bytes, selfClosing: bool, first: bytes, x: bytes, tail: bytes)
    requires attrs != [] && AttrsText(attrs[1..], gap, selfClosing) == first + x
    ensures AttrsText(attrs, gap, selfClosing) + tail == attrs[0].gap + (AttrText(attrs[0]) + (first + (x + tail)))
    ensures AttrsText(attrs[1..], gap, selfClosing) + tail == first + (x + tail)
  {
    hide AttrText;
    Regroup(first, x, tail);
    Regroup(AttrText(attrs[0]), first + x, tail);
    Regroup(attrs[0].gap, AttrText(attrs[0]) + (first + x), tail);
  }

  lemma FollowsFirst(attrs: seq<Written>, gap: bytes, selfClosing: bool, first: bytes, x: bytes)
    requires attrs != [] && Blanks(first) && x != [] && !Blank(x[0]) && x[0] != 61
    requires selfClosing && attrs[|attrs| - 1].form.Bare? ==> gap != []
    requires if |attrs| == 1 then first == gap && x[0] == (if selfClosing then 47 else 62)
             else first == attrs[1].gap && first != []
    ensures Follows(attrs[0], first, x)
  {}

  /** A tag is read as it was written, however its values were given and its parts set apart, up to its
      ">" and no further, the first attribute of each name being the one kept. */
  lemma TagReadBack(start: Start, tail: bytes, lib: Library)
    requires WritableStart(start)
    ensures ReadTag(StartText(start) + tail, lib) ==
            TagRead(Some(Tag(lib.lower(start.name), FirstOfEach(AsRead(start.attrs, lib)))), start.selfClosing,
                    |StartText(start)|)
  {
    hide Span, ReadAttrs, AttrText, WritableAttr, AttrsText, AsRead;
    var rest := AttrsText(start.attrs, start.gap, start.selfClosing);
    var first, x := Shape(start.attrs, start.gap, start.selfClosing);
    Regroup(start.name, rest, tail);
    Cut(rest, tail);
    NameEnds(start, first, x);
    SpanIs(start.name, rest + tail, IsTagNameEnd);
    Cut(start.name, rest + tail);
    AttrsReadBack(start.attrs, start.gap, start.selfClosing, tail, lib);
  }

  lemma NameEnds(start: Start, first: bytes, x: bytes)
    requires Blanks(first) && x != [] && (first == [] ==> start.attrs == [])
    requires start.attrs == [] ==> x[0] == if start.selfClosing then 47 else 62
    ensures first + x != [] && IsTagNameEnd((first + x)[0])
  {
    Cut(first, x);
  }
}
