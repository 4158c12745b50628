/** Reading back a whole page that was written out (internal/markup/scan.go).

    A page here is any run of words, stray "<", comments, declarations, end tags, tags and raw elements, written
    in the numbers of its bytes; what is read is the tags that were written, in order, and no others.
 */
module PageText {
  import opened Ascii
  import opened Bytes
  import opened Options
  import opened MarkupScan
  import opened NotMarkup
  import opened TagText

  datatype Piece =
    | Words(text: bytes)
    | Stray(next: byte)  // a "<" that starts nothing
    | Comment(body: bytes)
    | Aside(mark: byte, body: bytes)  // a declaration, an instruction or an end tag
    | Element(start: Start)
    | RawElement(start: Start, body: bytes, close: bytes)

  /** The elements whose text is not markup. */
  predicate IsRaw(name: bytes) {
    || name == Text("script") || name == Text("style") || name == Text("textarea") || name == Text("title")
    || name == Text("noscript") || name == Text("noembed") || name == Text("noframes") || name == Text("plaintext")
    || name == Text("xmp")
  }

  ghost predicate NoCommentEnd(body: bytes) {
    forall k :: 0 <= k < |body| - 2 ==> !(body[k] == 45 && body[k + 1] == 45 && body[k + 2] == 62)
  }

  ghost predicate WritablePiece(piece: Piece, lib: Library) {
    match piece
    case Words(text) => 60 !in text
    case Stray(next) => Blank(next) || next == 62
    case Comment(body) => NoCommentEnd(body)
    case Aside(mark, body) =>
      && (mark == 33 || mark == 63 || mark == 47) && 62 !in body
      && !(mark == 33 && [45, 45] <= body)
    case Element(start) =>
      WritableStart(start) && start.name[0] != 33 && start.name[0] != 63
      && (start.selfClosing || !IsRaw(lib.lower(start.name)))
    case RawElement(start, body, close) =>
      WritableStart(start) && start.name[0] != 33 && start.name[0] != 63
      && !start.selfClosing && IsRaw(lib.lower(start.name))
      && NeverCloses(body, lib.lower(start.name))
      && Folded(close) == Folded([60, 47] + lib.lower(start.name))
  }

  function PieceText(piece: Piece): bytes {
    match piece
    case Words(text) => text
    case Stray(next) => [60, next]
    case Comment(body) => [60] + ([33, 45, 45] + body + [45, 45, 62])
    case Aside(mark, body) => [60] + ([mark] + body + [62])
    case Element(start) => [60] + StartText(start)
    case RawElement(start, body, close) => [60] + (StartText(start) + (body + close + [62]))
  }

  function PageText(pieces: seq<Piece>): bytes {
    if pieces == [] then [] else PieceText(pieces[0]) + PageText(pieces[1..])
  }

  function TagOf(start: Start, lib: Library): Tag {
    Tag(lib.lower(start.name), FirstOfEach(AsRead(start.attrs, lib)))
  }

  /** The tags that were written. */
  function Written(pieces: seq<Piece>, lib: Library): seq<Tag> {
    if pieces == [] then []
    else
      (if pieces[0].Element? || pieces[0].RawElement? then [TagOf(pieces[0].start, lib)] else [])
      + Written(pieces[1..], lib)
  }

  // ---- One piece, whatever follows it ----

  lemma {:induction false} IndexPast(text: bytes, c: byte, t: bytes)
    requires c !in text
    ensures Index(text + t, [c]) == if Index(t, [c]) < 0 then -1 else |text| + Index(t, [c])
  {
    if text == [] {
      assert text + t == t;
    } else {
      assert (text + t)[1..] == text[1..] + t && (text + t)[..1] == [text[0]];
      IndexPast(text[1..], c, t);
    }
  }

  lemma WordsSkipped(text: bytes, t: bytes, lib: Library)
    requires 60 !in text
    ensures Tags(text + t, lib) == Tags(t, lib)
  {
    hide Index, AfterLess, Tags, NextStep;
    var j := Index(t, [60]);
    IndexPast(text, 60, t);
    TagsHere(text + t, lib);
    TagsHere(t, lib);
    StepHere(text + t, lib);
    StepHere(t, lib);
    if j >= 0 {
      CutLater(text, t, j + 1);
      CutLater(text, t, j + 1 + AfterLess(t[j + 1..], lib).read);
    }
  }

  /** A "<", what is read after it, and what follows that. */
  lemma AfterMark(r: bytes, t: bytes, found: Option<Tag>, lib: Library)
    requires AfterLess(r + t, lib) == Step(found, |r|)
    ensures Tags([60] + r + t, lib) == (if found.Some? then [found.value] else []) + Tags(t, lib)
  {
    hide AfterLess, Tags;
    Cut(r, t);
    Regroup([60], r, t);
    assert [] + [LESS] + (r + t) == [60] + (r + t);
    MetHere([], r + t, lib);
    assert [] + Tags(t, lib) == Tags(t, lib);
  }

  lemma StraySkipped(next: byte, t: bytes, lib: Library)
    requires Blank(next) || next == 62
    ensures Tags([60, next] + t, lib) == Tags(t, lib)
  {
    hide Tags;
    StrayRead([next] + t, lib);
    assert [] + [LESS] + ([next] + t) == [60, next] + t;
    MetHere([], [next] + t, lib);
    assert ([next] + t)[0..] == [next] + t;
    WordsSkipped([next], t, lib);
  }

  lemma StrayRead(r: bytes, lib: Library)
    requires r != [] && (Blank(r[0]) || r[0] == 62)
    ensures AfterLess(r, lib) == Step(None, 0)
  {
    hide Index, PastEndTag;
  }

  lemma {:induction false} NoIndex(body: bytes)
    requires NoCommentEnd(body)
    ensures Index(body, CLOSE_COMMENT) == -1
  {
    if body != [] {
      var rest := body[1..];
      assert forall k :: 0 <= k < |rest| ==> rest[k] == body[k + 1];
      if |body| >= 3 {
        assert body[..3][0] == body[0] && body[..3][1] == body[0 + 1] && body[..3][2] == body[0 + 2];
      }
      NoIndex(rest);
    }
  }

  lemma CommentRead(body: bytes, t: bytes, lib: Library)
    requires NoCommentEnd(body)
    ensures AfterLess([33, 45, 45] + body + [45, 45, 62] + t, lib) == Step(None, |body| + 6)
  {
    hide Index, ReadTag, PastEndTag;
    NoIndex(body);
    CommentEnds(body, t);
    var r := [33, 45, 45] + body + [45, 45, 62] + t;
    assert r[..3] == OPEN_COMMENT && r[3..] == body + CLOSE_COMMENT + t;
  }

  lemma AsideRead(mark: byte, body: bytes, t: bytes, lib: Library)
    requires (mark == 33 || mark == 63 || mark == 47) && 62 !in body && !(mark == 33 && [45, 45] <= body)
    ensures AfterLess([mark] + body + [62] + t, lib) == Step(None, |body| + 2)
  {
    hide Index, ReadTag, PastEndTag;
    var r := [mark] + body + [62] + t;
    IndexSkips([mark] + body, 62, t);
    assert r[0] == mark;
    NotComment(mark, body, t);
  }

  lemma NotComment(mark: byte, body: bytes, t: bytes)
    requires 62 !in body && !(mark == 33 && [45, 45] <= body)
    ensures !(OPEN_COMMENT <= [mark] + body + [62] + t)
  {
    var r := [mark] + body + [62] + t;
    assert r[0] == mark;
    assert |body| >= 1 ==> r[1] == body[0];
    assert |body| >= 2 ==> r[2] == body[1];
    assert |body| == 0 ==> r[1] == 62;
    assert |body| == 1 ==> r[2] == 62;
  }

  lemma StartRead(start: Start, t: bytes, lib: Library)
    requires WritableStart(start) && start.name[0] != 33 && start.name[0] != 63
    ensures var tag, r := TagOf(start, lib), StartText(start) + t;
            AfterLess(r, lib) ==
            Step(Some(tag), |StartText(start)| + if tag.name in RAW_TEXT && !start.selfClosing
                                                 then PastEndTag(t, tag.name) else 0)
  {
    hide ReadTag, PastEndTag, RAW_TEXT, AsRead, AttrsText;
    var r := StartText(start) + t;
    TagReadBack(start, t, lib);
    Cut(StartText(start), t);
    assert r[0] == start.name[0] != 47;
  }

  lemma RawNames(name: bytes)
    ensures IsRaw(name) <==> name in RAW_TEXT
  {}

  lemma RawRead(start: Start, body: bytes, close: bytes, t: bytes, lib: Library)
    requires WritablePiece(RawElement(start, body, close), lib)
    ensures AfterLess(StartText(start) + (body + close) + ([62] + t), lib) ==
            Step(Some(TagOf(start, lib)), |StartText(start)| + |body + close|)
  {
    hide AfterLess, StartText, PastEndTag, NeverCloses, WritableStart;
    var name, tail := lib.lower(start.name), [62] + t;
    RawNames(name);
    RawNamesPlain(name);
    Regroup(StartText(start), body + close, tail);
    StartRead(start, body + close + tail, lib);
    assert |Folded(close)| == |close| && |Folded(EndTag(name))| == |EndTag(name)|;
    RawEnds(body, close, tail, name);
  }

  lemma RawTail(start: Start, body: bytes, close: bytes, t: bytes, lib: Library)
    requires WritablePiece(RawElement(start, body, close), lib)
    ensures Tags(PieceText(RawElement(start, body, close)) + t, lib) == [TagOf(start, lib)] + Tags(t, lib)
  {
    hide AfterLess, StartText, Tags, WritablePiece;
    var r := StartText(start) + (body + close);
    RawRead(start, body, close, t, lib);
    AfterMark(r, [62] + t, Some(TagOf(start, lib)), lib);
    WordsSkipped([62], t, lib);
    Regroup(StartText(start), body + close, [62]);
    Regroup([60], r, [62]);
    Regroup([60] + r, [62], t);
  }

  lemma PieceReadBack(piece: Piece, t: bytes, lib: Library)
    requires WritablePiece(piece, lib)
    ensures Tags(PieceText(piece) + t, lib) == Written([piece], lib) + Tags(t, lib)
  {
    hide AfterLess, StartText, Tags, NoCommentEnd, WritableStart, NeverCloses, TagOf;
    OnePiece(piece, lib);
    match piece
    case Words(text) =>
      WordsSkipped(text, t, lib);
      assert [] + Tags(t, lib) == Tags(t, lib);
    case Stray(next) =>
      StraySkipped(next, t, lib);
      assert [] + Tags(t, lib) == Tags(t, lib);
    case Comment(body) =>
      CommentRead(body, t, lib);
      AfterMark([33, 45, 45] + body + [45, 45, 62], t, None, lib);
    case Aside(mark, body) =>
      AsideRead(mark, body, t, lib);
      AfterMark([mark] + body + [62], t, None, lib);
    case Element(start) =>
      RawNames(lib.lower(start.name));
      StartRead(start, t, lib);
      NameOf(start, lib);
      AfterMark(StartText(start), t, Some(TagOf(start, lib)), lib);
    case RawElement(start, body, close) =>
      RawTail(start, body, close, t, lib);
  }

  lemma NameOf(start: Start, lib: Library)
    ensures TagOf(start, lib).name == lib.lower(start.name)
  {}

  lemma OnePiece(piece: Piece, lib: Library)
    ensures Written([piece], lib) ==
            if piece.Element? || piece.RawElement? then [TagOf(piece.start, lib)] else []
  {
    hide TagOf;
    assert [piece][1..] == [];
  }

  /** What is read of a page is the tags that were written on it. */
  lemma {:induction false} PageReadBack(pieces: seq<Piece>, lib: Library)
    requires forall piece :: piece in pieces ==> WritablePiece(piece, lib)
    ensures Tags(PageText(pieces), lib) == Written(pieces, lib)
  {
    hide Tags, WritablePiece, PieceText, TagOf;
    if pieces == [] {
      NoTags([], lib);
    } else {
      PieceReadBack(pieces[0], PageText(pieces[1..]), lib);
      PageReadBack(pieces[1..], lib);
      OnePiece(pieces[0], lib);
    }
  }
}
