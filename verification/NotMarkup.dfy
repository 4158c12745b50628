/** What the scanner never reports: anything written in a comment or in the text of a raw
    element (internal/markup/scan.go). */
module NotMarkup {
  import opened Ascii
  import opened Bytes
  import opened Options
  import opened MarkupScan

  // ---- What was read does not depend on what comes after it ----

  lemma DropLeft(p: bytes, v: bytes, n: nat)
    requires n <= |p|
    ensures (p + v)[n..] == p[n..] + v
  {}

  lemma {:induction false} SpanLocal(p: bytes, v: bytes, w: bytes, stop: byte -> bool)
    requires Span(p + v, stop) < |p|
    ensures Span(p + w, stop) == Span(p + v, stop)
  {
    if !stop(p[0]) {
      DropLeft(p, v, 1);
      DropLeft(p, w, 1);
      SpanLocal(p[1..], v, w, stop);
    }
  }

  lemma {:induction false} IndexLocal(p: bytes, v: bytes, w: bytes, sep: bytes)
    requires 0 <= Index(p + v, sep) <= |p| - |sep|
    ensures Index(p + w, sep) == Index(p + v, sep)
  {
    assert (p + v)[..|sep|] == p[..|sep|] && (p + w)[..|sep|] == p[..|sep|];
    if p[..|sep|] != sep {
      DropLeft(p, v, 1);
      DropLeft(p, w, 1);
      IndexLocal(p[1..], v, w, sep);
    }
  }

  lemma PastNextLocal(p: bytes, v: bytes, w: bytes, sep: bytes)
    requires PastNext(p + v, sep) < |p|
    ensures PastNext(p + w, sep) == PastNext(p + v, sep)
  {
    IndexLocal(p, v, w, sep);
  }

  lemma {:induction false} PastEndTagLocal(p: bytes, v: bytes, w: bytes, name: bytes)
    requires PastEndTag(p + v, name) < |p|
    ensures PastEndTag(p + w, name) == PastEndTag(p + v, name)
  {
    var want := EndTag(name);
    assert (p + v)[..|want|] == p[..|want|] && (p + w)[..|want|] == p[..|want|];
    if !ClosesHere(p + v, name) {
      DropLeft(p, v, 1);
      DropLeft(p, w, 1);
      PastEndTagLocal(p[1..], v, w, name);
    }
  }

  lemma ReadValueLocal(p: bytes, v: bytes, w: bytes, lib: Library)
    requires ReadValue(p + v, lib).read < |p|
    ensures ReadValue(p + w, lib) == ReadValue(p + v, lib)
  {
    hide Unescaped, Lowered, Span, IsUnquotedEnd, Only;
    var s, t := p + v, p + w;
    var n := ReadValue(s, lib).read;
    if p[0] == DOUBLE_QUOTE || p[0] == SINGLE_QUOTE {
      DropLeft(p, v, 1);
      DropLeft(p, w, 1);
      SpanLocal(p[1..], v, w, Only(p[0]));
      assert s[1..n - 1] == t[1..n - 1];
    } else {
      SpanLocal(p, v, w, IsUnquotedEnd);
      assert s[..n] == t[..n];
    }
  }

  lemma ReadGivenLocal(p: bytes, v: bytes, w: bytes, lib: Library)
    requires ReadGiven(p + v, lib).read < |p|
    ensures ReadGiven(p + w, lib) == ReadGiven(p + v, lib)
  {
    hide Span, ReadGiven, ReadValue, NotSpace;
    var eq := Span(p + v, NotSpace);
    GivenSpan(p + v, lib);
    SpanLocal(p, v, w, NotSpace);
    if p[eq] == EQUALS {
      var rest := p[eq + 1..];
      GivenHere(p, v, lib, eq);
      SpanLocal(rest, v, w, NotSpace);
      GivenHere(p, w, lib, eq);
      var at := Span(rest + v, NotSpace);
      DropLeft(rest, v, at);
      DropLeft(rest, w, at);
      ReadValueLocal(rest[at..], v, w, lib);
    } else {
      NotGiven(p + v, lib, eq);
      NotGiven(p + w, lib, eq);
    }
  }

  lemma GivenSpan(s: bytes, lib: Library)
    ensures Span(s, NotSpace) <= ReadGiven(s, lib).read
  {
    hide Span, ReadValue, NotSpace;
  }

  lemma NotGiven(s: bytes, lib: Library, eq: nat)
    requires eq == Span(s, NotSpace) && (eq == |s| || s[eq] != EQUALS)
    ensures ReadGiven(s, lib) == ValueRead([], eq)
  {
    hide Span, NotSpace;
  }

  lemma GivenHere(p: bytes, v: bytes, lib: Library, eq: nat)
    requires eq == Span(p + v, NotSpace) < |p| && p[eq] == EQUALS
    ensures var rest := p[eq + 1..] + v;
            var at := Span(rest, NotSpace);
            var r := ReadValue(rest[at..], lib);
            ReadGiven(p + v, lib) == ValueRead(r.value, eq + 1 + at + r.read)
  {
    hide Span, ReadValue, NotSpace;
    DropLeft(p, v, eq + 1);
    var rest := p[eq + 1..] + v;
    assert (p + v)[eq + 1 + Span(rest, NotSpace)..] == rest[Span(rest, NotSpace)..];
  }

  lemma ReadAttrLocal(p: bytes, v: bytes, w: bytes, lib: Library)
    requires ReadAttr(p + v, lib).read < |p|
    ensures ReadAttr(p + w, lib) == ReadAttr(p + v, lib)
  {
    hide Unescaped, Lowered, Span, ReadGiven, IsAttrNameEnd;
    var n := Span(p + v, IsAttrNameEnd);
    SpanLocal(p, v, w, IsAttrNameEnd);
    if n > 0 {
      assert (p + v)[..n] == (p + w)[..n];
      DropLeft(p, v, n);
      DropLeft(p, w, n);
      ReadGivenLocal(p[n..], v, w, lib);
    }
  }

  /** A tag that ended before the end of the text. */
  lemma {:induction false} ReadAttrsLocal(p: bytes, v: bytes, w: bytes, lib: Library)
    requires ReadAttrs(p + v, lib).read <= |p| && ReadAttrs(p + v, lib).read < |p + v|
    ensures ReadAttrs(p + w, lib) == ReadAttrs(p + v, lib)
    decreases |p|
  {
    hide Unescaped, Lowered, Span, ReadAttr, ReadAttrs, NotSpace;
    var s := p + v;
    var k := Span(s, NotSpace);
    SpanLocal(p, v, w, NotSpace);
    AttrsHere(s, lib, k);
    if s[k] == GREATER || s[k] == SLASH {
      AttrsHere(p + w, lib, k);
      if s[k] == SLASH && !(k + 1 < |s| && s[k + 1] == GREATER) {
        DropLeft(p, v, k + 1);
        DropLeft(p, w, k + 1);
        ReadAttrsLocal(p[k + 1..], v, w, lib);
      }
    } else {
      AttrHere(s, lib, k);
      DropLeft(p, v, k);
      var r := ReadAttr(s[k..], lib);
      var n := k + if r.read == 0 then 1 else r.read;
      assert s[n..] != [];
      ReadAttrLocal(p[k..], v, w, lib);
      DropLeft(p, v, n);
      ReadAttrsLocal(p[n..], v, w, lib);
      MoreLocal(p, v, w, lib, k, n);
    }
  }

  lemma MoreLocal(p: bytes, v: bytes, w: bytes, lib: Library, k: nat, n: nat)
    requires k == Span(p + v, NotSpace) == Span(p + w, NotSpace) < n <= |p| && p[k] != GREATER && p[k] != SLASH
    requires ReadAttr(p[k..] + w, lib) == ReadAttr(p[k..] + v, lib)
    requires var r := ReadAttr(p[k..] + v, lib);
             n == k + if r.read == 0 then 1 else r.read
    requires ReadAttrs(p[n..] + w, lib) == ReadAttrs(p[n..] + v, lib)
    ensures ReadAttrs(p + w, lib) == ReadAttrs(p + v, lib)
  {
    hide Span, ReadAttr, ReadAttrs, NotSpace, Passed, Added;
    MoreHere(p, v, lib, k, n);
    MoreHere(p, w, lib, k, n);
  }

  lemma MoreHere(p: bytes, v: bytes, lib: Library, k: nat, n: nat)
    requires k == Span(p + v, NotSpace) < n <= |p| && p[k] != GREATER && p[k] != SLASH
    requires var r := ReadAttr(p[k..] + v, lib);
             n == k + if r.read == 0 then 1 else r.read
    ensures var r, more := ReadAttr(p[k..] + v, lib), Passed(n, ReadAttrs(p[n..] + v, lib));
            ReadAttrs(p + v, lib) == if r.read == 0 then more else Added(r.attr, more)
  {
    hide Span, ReadAttr, ReadAttrs, NotSpace, Passed, Added;
    DropLeft(p, v, k);
    DropLeft(p, v, n);
    AttrHere(p + v, lib, k);
  }

  lemma ReadTagLocal(p: bytes, v: bytes, w: bytes, lib: Library)
    requires p != [] && ReadTag(p + v, lib).read <= |p| && ReadTag(p + v, lib).read < |p + v|
    ensures ReadTag(p + w, lib) == ReadTag(p + v, lib)
  {
    hide Unescaped, Lowered, Span, ReadAttrs, IsTagNameEnd;
    var n := Span(p + v, IsTagNameEnd);
    SpanLocal(p, v, w, IsTagNameEnd);
    if n > 0 {
      assert (p + v)[..n] == (p + w)[..n];
      DropLeft(p, v, n);
      DropLeft(p, w, n);
      ReadAttrsLocal(p[n..], v, w, lib);
    }
  }

  lemma AfterLessLocal(p: bytes, v: bytes, w: bytes, lib: Library)
    requires AfterLess(p + v, lib).read < |p|
    ensures AfterLess(p + w, lib) == AfterLess(p + v, lib)
  {
    hide ReadTag, PastEndTag, Index, PastNext, RAW_TEXT;
    var s := p + v;
    assert s[0] == p[0] && (p + w)[0] == p[0];
    if OPEN_COMMENT <= s {
      DropLeft(p, v, 3);
      DropLeft(p, w, 3);
      PastNextLocal(p[3..], v, w, CLOSE_COMMENT);
    } else if s[0] in [BANG, QUESTION, SLASH] {
      PastOne(s);
      assert s[..3] == p[..3] && (p + w)[..3] == p[..3];
      PastNextLocal(p, v, w, [GREATER]);
    } else {
      ReadTagLocal(p, v, w, lib);
      var r := ReadTag(s, lib);
      if r.tag.Some? && r.tag.value.name in RAW_TEXT && !r.closing {
        DropLeft(p, v, r.read);
        DropLeft(p, w, r.read);
        PastEndTagLocal(p[r.read..], v, w, r.tag.value.name);
      }
    }
  }

  lemma PastOne(s: bytes)
    requires s != [] && s[0] != GREATER
    ensures PastNext(s, [GREATER]) >= 2 || PastNext(s, [GREATER]) == |s|
  {
    assert s[..1][0] == s[0];
  }

  lemma NextStepLocal(p: bytes, v: bytes, w: bytes, lib: Library)
    requires NextStep(p + v, lib).Step? && NextStep(p + v, lib).read < |p|
    ensures NextStep(p + w, lib) == NextStep(p + v, lib)
  {
    hide AfterLess, Index;
    var j := Index(p + v, [LESS]);
    IndexLocal(p, v, w, [LESS]);
    DropLeft(p, v, j + 1);
    DropLeft(p, w, j + 1);
    AfterLessLocal(p[j + 1..], v, w, lib);
  }

  // ---- Where the scan gets to ----

  /** The scan of `s` is, between two tags, at `at`. */
  predicate Reaches(s: bytes, lib: Library, at: nat)
    decreases |s|
  {
    at == 0 || var step := NextStep(s, lib);
               step.Step? && step.read <= at && Reaches(s[step.read..], lib, at - step.read)
  }

  /** The tags reported before it got there. */
  function Seen(s: bytes, lib: Library, at: nat): seq<Tag>
    requires Reaches(s, lib, at)
    decreases |s|
  {
    if at == 0 then []
    else
      var step := NextStep(s, lib);
      var more := Seen(s[step.read..], lib, at - step.read);
      if step.found.Some? then [step.found.value] + more else more
  }

  lemma SeenHere(s: bytes, lib: Library, at: nat)
    requires Reaches(s, lib, at)
    ensures at == 0 ==> Seen(s, lib, at) == []
    ensures at > 0 ==>
              var step := NextStep(s, lib);
              var more := Seen(s[step.read..], lib, at - step.read);
              Seen(s, lib, at) == if step.found.Some? then [step.found.value] + more else more
  {
    hide NextStep;
  }

  lemma {:induction false} SeenThenRest(s: bytes, lib: Library, at: nat)
    requires Reaches(s, lib, at)
    ensures at <= |s| && Tags(s, lib) == Seen(s, lib, at) + Tags(s[at..], lib)
    decreases |s|
  {
    hide NextStep, Tags, Seen;
    SeenHere(s, lib, at);
    if at == 0 {
      assert s[0..] == s;
      assert [] + Tags(s, lib) == Tags(s, lib);
    } else {
      var step := NextStep(s, lib);
      TagsHere(s, lib);
      SeenThenRest(s[step.read..], lib, at - step.read);
      assert s[step.read..][at - step.read..] == s[at..];
      if step.found.Some? {
        var more := Seen(s[step.read..], lib, at - step.read);
        assert [step.found.value] + (more + Tags(s[at..], lib)) == [step.found.value] + more + Tags(s[at..], lib);
      }
    }
  }

  /** Where the scan gets to before the end of `p`, it gets to whatever follows `p`. */
  lemma {:induction false} ReachesLocal(p: bytes, v: bytes, w: bytes, lib: Library, at: nat)
    requires Reaches(p + v, lib, at) && at < |p|
    ensures Reaches(p + w, lib, at) && Seen(p + w, lib, at) == Seen(p + v, lib, at)
    decreases |p|
  {
    hide NextStep;
    if at > 0 {
      var n := NextStep(p + v, lib).read;
      NextStepLocal(p, v, w, lib);
      DropLeft(p, v, n);
      DropLeft(p, w, n);
      ReachesLocal(p[n..], v, w, lib, at - n);
    }
  }

  /** Having dealt with what is before `at`, the scan finds its next "<" just after `before`. */
  predicate Meets(before: bytes, lib: Library, at: nat) {
    at <= |before| && Reaches(before + [LESS], lib, at) && LESS !in before[at..]
  }

  lemma {:induction false} IndexSkips(s: bytes, c: byte, t: bytes)
    requires c !in s
    ensures Index(s + [c] + t, [c]) == |s|
  {
    var u := s + [c] + t;
    if s == [] {
      assert u[..1] == [c];
    } else {
      assert u[..1][0] == s[0];
      assert u[1..] == s[1..] + [c] + t;
      IndexSkips(s[1..], c, t);
    }
  }

  /** What is reported when the scan meets a "<": the tags before it, and what the text
      after it comes to. */
  lemma Met(before: bytes, rest: bytes, lib: Library, at: nat)
    requires Meets(before, lib, at)
    ensures var r := AfterLess(rest, lib);
            var after := Tags(rest[r.read..], lib);
            Tags(before + [LESS] + rest, lib) ==
            Seen(before + [LESS], lib, at) + (if r.found.Some? then [r.found.value] + after else after)
  {
    hide AfterLess, Index, Reaches, Seen, Tags;
    var p, s := before + [LESS], before + [LESS] + rest;
    assert p + [] == p;
    ReachesLocal(p, [], rest, lib, at);
    SeenThenRest(s, lib, at);
    var gap := before[at..];
    assert s[at..] == gap + [LESS] + rest;
    MetHere(gap, rest, lib);
  }

  lemma MetHere(gap: bytes, rest: bytes, lib: Library)
    requires LESS !in gap
    ensures var r := AfterLess(rest, lib);
            var after := Tags(rest[r.read..], lib);
            Tags(gap + [LESS] + rest, lib) == if r.found.Some? then [r.found.value] + after else after
  {
    hide NextStep, AfterLess;
    StepAfter(gap, rest, lib);
    var s, n := gap + [LESS] + rest, AfterLess(rest, lib).read;
    assert s[|gap| + 1 + n..] == rest[n..];
  }

  lemma StepAfter(gap: bytes, rest: bytes, lib: Library)
    requires LESS !in gap
    ensures var r := AfterLess(rest, lib);
            NextStep(gap + [LESS] + rest, lib) == Step(r.found, |gap| + 1 + r.read)
  {
    hide AfterLess, Index;
    IndexSkips(gap, LESS, rest);
    assert (gap + [LESS] + rest)[|gap| + 1..] == rest;
  }

  // ---- Comments ----

  lemma {:induction false} CommentEnds(body: bytes, tail: bytes)
    requires Index(body, CLOSE_COMMENT) == -1
    ensures Index(body + CLOSE_COMMENT + tail, CLOSE_COMMENT) == |body|
  {
    var s := body + CLOSE_COMMENT + tail;
    if body == [] {
      assert s[..3] == CLOSE_COMMENT;
    } else {
      assert s[1..] == body[1..] + CLOSE_COMMENT + tail;
      if |body| >= 3 {
        assert s[..3] == body[..3];
      } else {
        assert s[..3][2] == s[2];
        IndexOfShort(body[1..]);
      }
      CommentEnds(body[1..], tail);
    }
  }

  lemma IndexOfShort(s: bytes)
    requires |s| < 3
    ensures Index(s, CLOSE_COMMENT) == -1
  {}

  /** Wherever the scan meets a comment, what is reported does not depend on its body. */
  lemma CommentSkipped(before: bytes, body: bytes, tail: bytes, lib: Library, at: nat)
    requires Meets(before, lib, at) && Index(body, CLOSE_COMMENT) == -1
    ensures Tags(before + [LESS] + (OPEN_COMMENT + body + CLOSE_COMMENT + tail), lib) ==
            Seen(before + [LESS], lib, at) + Tags(tail, lib)
  {
    hide Index, ReadTag, Tags, Seen, Reaches;
    var rest := OPEN_COMMENT + body + CLOSE_COMMENT + tail;
    Met(before, rest, lib, at);
    CommentEnds(body, tail);
    assert rest[3..] == body + CLOSE_COMMENT + tail;
    assert rest[3 + |body| + 3..] == tail;
  }

  /** A comment that is not closed ends the page. */
  lemma OpenCommentEndsPage(before: bytes, body: bytes, lib: Library, at: nat)
    requires Meets(before, lib, at) && Index(body, CLOSE_COMMENT) == -1
    ensures Tags(before + [LESS] + (OPEN_COMMENT + body), lib) == Seen(before + [LESS], lib, at)
  {
    hide Index, ReadTag, Seen, Reaches;
    var rest := OPEN_COMMENT + body;
    Met(before, rest, lib, at);
    assert rest[3..] == body;
    NoTags(rest[|rest|..], lib);
  }

  lemma NoTags(s: bytes, lib: Library)
    requires s == []
    ensures Tags(s, lib) == []
  {}

  // ---- Raw text ----

  /** A closing tag of `name` starts at `k` and its name ends, all within `body`. */
  predicate ClosesAt(body: bytes, name: bytes, k: nat) {
    var want := EndTag(name);
    k + |want| < |body| && Folded(body[k..k + |want|]) == Folded(want) && IsTagNameEnd(body[k + |want|])
  }

  ghost predicate NeverCloses(body: bytes, name: bytes) {
    forall k: nat :: !ClosesAt(body, name, k)
  }

  predicate IsClose(close: bytes, name: bytes, tail: bytes) {
    |close| == |EndTag(name)| && Folded(close) == Folded(EndTag(name)) && (tail == [] || IsTagNameEnd(tail[0]))
  }

  lemma RawNamesPlain(name: bytes)
    requires name in RAW_TEXT
    ensures LESS !in name
  {}

  lemma ClosesLater(body: bytes, name: bytes)
    requires body != [] && NeverCloses(body, name)
    ensures NeverCloses(body[1..], name)
  {
    forall k: nat
      ensures !ClosesAt(body[1..], name, k)
    {
      assert !ClosesAt(body, name, k + 1);
      var n := |EndTag(name)|;
      if k + n < |body[1..]| {
        assert body[1..][k..k + n] == body[k + 1..k + 1 + n];
      }
    }
  }

  /** The closing tag cannot start in the body and end after it. */
  lemma NoStraddle(body: bytes, close: bytes, tail: bytes, name: bytes)
    requires body != [] && LESS !in name && !ClosesAt(body, name, 0) && IsClose(close, name, tail)
    ensures !ClosesHere(body + close + tail, name)
  {
    var s, want := body + close + tail, EndTag(name);
    assert Folded(close)[0] == Folded(want)[0];
    assert close[0] == LESS && s[|body|] == LESS;
    if |want| < |body| {
      assert s[..|want|] == body[0..0 + |want|];
    } else if |body| < |want| <= |s| {
      assert Folded(s[..|want|])[|body|] == LESS;
      assert want[|body|] != LESS;
      assert Folded(want)[|body|] != LESS;
    }
  }

  lemma {:induction false} RawEnds(body: bytes, close: bytes, tail: bytes, name: bytes)
    requires LESS !in name && NeverCloses(body, name) && IsClose(close, name, tail)
    ensures PastEndTag(body + close + tail, name) == |body| + |close|
  {
    var s := body + close + tail;
    if body == [] {
      assert s == close + tail;
      assert s[..|close|] == close;
    } else {
      NoStraddle(body, close, tail, name);
      ClosesLater(body, name);
      assert s[1..] == body[1..] + close + tail;
      RawEnds(body[1..], close, tail, name);
    }
  }

  lemma {:induction false} RawNeverEnds(body: bytes, name: bytes)
    requires NeverCloses(body, name)
    ensures PastEndTag(body, name) == |body|
  {
    if body != [] {
      assert !ClosesAt(body, name, 0);
      if |EndTag(name)| < |body| {
        assert body[0..0 + |EndTag(name)|] == body[..|EndTag(name)|];
      }
      ClosesLater(body, name);
      RawNeverEnds(body[1..], name);
    }
  }

  /** The text after a "<" that opens a raw element, and the tag it opens. */
  predicate OpensRaw(open: bytes, tag: Tag, lib: Library) {
    && open != [] && open[0] !in [BANG, QUESTION, SLASH]
    && ReadTag(open + [LESS], lib) == TagRead(Some(tag), false, |open|)
    && tag.name in RAW_TEXT
  }

  lemma AfterRawOpen(open: bytes, tag: Tag, rest: bytes, lib: Library)
    requires OpensRaw(open, tag, lib)
    ensures AfterLess(open + rest, lib) == Step(Some(tag), |open| + PastEndTag(rest, tag.name))
  {
    hide ReadTag, PastEndTag;
    ReadTagLocal(open, [LESS], rest, lib);
    assert (open + rest)[|open|..] == rest;
  }

  lemma RawMet(before: bytes, open: bytes, tag: Tag, rest: bytes, lib: Library, at: nat)
    requires Meets(before, lib, at) && OpensRaw(open, tag, lib)
    ensures Tags(before + [LESS] + (open + rest), lib) ==
            Seen(before + [LESS], lib, at) + ([tag] + Tags(rest[PastEndTag(rest, tag.name)..], lib))
  {
    hide Tags, Seen, AfterLess, PastEndTag, Meets, OpensRaw;
    Met(before, open + rest, lib, at);
    AfterRawOpen(open, tag, rest, lib);
    assert (open + rest)[|open| + PastEndTag(rest, tag.name)..] == rest[PastEndTag(rest, tag.name)..];
  }

  /** Wherever the scan meets a raw element, it reports that tag and nothing of its text. */
  lemma RawTextSkipped(before: bytes, open: bytes, tag: Tag, body: bytes, close: bytes, tail: bytes, lib: Library,
                       at: nat)
    requires Meets(before, lib, at) && OpensRaw(open, tag, lib)
    requires NeverCloses(body, tag.name) && IsClose(close, tag.name, tail)
    ensures Tags(before + [LESS] + (open + (body + close + tail)), lib) ==
            Seen(before + [LESS], lib, at) + ([tag] + Tags(tail, lib))
  {
    hide Tags, Seen, PastEndTag, NeverCloses, Meets;
    var inner := body + close + tail;
    RawMet(before, open, tag, inner, lib, at);
    RawNamesPlain(tag.name);
    RawEnds(body, close, tail, tag.name);
    assert inner[|body| + |close|..] == tail;
  }

  /** A raw element that is not closed ends the page. */
  lemma OpenRawEndsPage(before: bytes, open: bytes, tag: Tag, body: bytes, lib: Library, at: nat)
    requires Meets(before, lib, at) && OpensRaw(open, tag, lib) && NeverCloses(body, tag.name)
    ensures Tags(before + [LESS] + (open + body), lib) == Seen(before + [LESS], lib, at) + [tag]
  {
    hide Seen, Tags, PastEndTag, Meets, OpensRaw;
    RawMet(before, open, tag, body, lib, at);
    RawNeverEnds(body, tag.name);
    NoTags(body[|body|..], lib);
  }
}
