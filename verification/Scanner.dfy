/** The scanner's cursor and its loops (internal/markup/scan.go). */
module Scanner {
  import opened Ascii
  import opened Bytes
  import opened Options
  import opened MarkupScan

  method EqualFoldAscii(a: bytes, b: bytes) returns (equal: bool)
    requires |a| == |b|
    ensures equal == (Folded(a) == Folded(b))
  {
    for i := 0 to |a|
      invariant Folded(a)[..i] == Folded(b)[..i]
    {
      if Fold(a[i]) != Fold(b[i]) {
        assert Folded(a)[i] != Folded(b)[i];
        return false;
      }
      assert Folded(a)[..i + 1] == Folded(a)[..i] + [Folded(a)[i]];
      assert Folded(b)[..i + 1] == Folded(b)[..i] + [Folded(b)[i]];
    }
    assert Folded(a)[..|a|] == Folded(a) && Folded(b)[..|b|] == Folded(b);
    return true;
  }

  /** The first match is after everything that was passed over. */
  lemma {:induction false} IndexFrom(s: bytes, sep: bytes, i: nat)
    requires i <= |s| && forall k :: 0 <= k < i && k + |sep| <= |s| ==> !(sep <= s[k..])
    ensures var j := Index(s[i..], sep);
            Index(s, sep) == if j < 0 then -1 else i + j
    decreases i
  {
    if i == 0 {
      assert s[0..] == s;
    } else if |sep| <= |s| {
      assert s[0..] == s;
      forall k | 0 <= k < i - 1 && k + |sep| <= |s[1..]|
        ensures !(sep <= s[1..][k..])
      {
        Drop(s, 1, k);
      }
      IndexFrom(s[1..], sep, i - 1);
      Drop(s, 1, i - 1);
    }
  }

  lemma Drop(s: bytes, m: nat, n: nat)
    requires m + n <= |s|
    ensures s[m..][n..] == s[m + n..]
  {}

  lemma FoldedSlice(s: bytes, i: nat, n: nat)
    requires i + n <= |s|
    ensures Folded(s)[i..][..n] == Folded(s[i..i + n])
  {}

  method FindFold(haystack: bytes, needle: bytes) returns (at: int)
    ensures at == IndexFold(haystack, needle)
  {
    if |needle| == 0 {
      return 0;
    }
    hide Index;
    ghost var h, n := Folded(haystack), Folded(needle);
    var first := Fold(needle[0]);
    var i := 0;
    while i + |needle| <= |haystack|
      invariant 0 <= i <= |haystack|
      invariant forall k :: 0 <= k < i ==> !(n <= h[k..])
    {
      FoldedSlice(haystack, i, |needle|);
      if Fold(haystack[i]) == first {
        var equal := EqualFoldAscii(haystack[i..i + |needle|], needle);
        if equal {
          IndexFrom(h, n, i);
          IndexHere(h[i..], n);
          return i;
        }
      } else {
        assert h[i..][0] != n[0];
      }
      i := i + 1;
    }
    IndexFrom(h, n, i);
    IndexShort(h[i..], n);
    return -1;
  }

  lemma IndexHere(s: bytes, sep: bytes)
    requires sep <= s
    ensures Index(s, sep) == 0
  {}

  lemma IndexShort(s: bytes, sep: bytes)
    requires |s| < |sep|
    ensures Index(s, sep) == -1
  {}

  class Scanner {
    const src: bytes
    const lib: Library
    var i: nat

    ghost predicate Valid()
      reads this
    {
      i <= |src|
    }

    /** The text ahead of the cursor. */
    function Rest(): bytes
      reads this
      requires Valid()
    {
      src[i..]
    }

    constructor (src: bytes, lib: Library)
      ensures Valid() && this.src == src && this.lib == lib && Rest() == src
    {
      this.src := src;
      this.lib := lib;
      i := 0;
    }

    function Has(prefix: bytes): bool
      reads this
      requires Valid()
    {
      prefix <= Rest()
    }

    method SkipTo(sep: bytes)
      requires Valid()
      modifies this
      ensures Valid() && i == old(i) + PastNext(old(Rest()), sep)
    {
      var j := Index(src[i..], sep);
      if j < 0 {
        i := |src|;
        return;
      }
      i := i + j + |sep|;
    }

    method SkipSpan(stop: byte -> bool)
      requires Valid()
      modifies this
      ensures Valid() && i == old(i) + Span(old(Rest()), stop)
    {
      ghost var rest := Rest();
      while i < |src| && !stop(src[i])
        invariant old(i) <= i <= |src|
        invariant i + Span(src[i..], stop) == old(i) + Span(rest, stop)
      {
        assert src[i..][1..] == src[i + 1..];
        i := i + 1;
      }
    }

    method SkipToEndTag(name: bytes)
      requires Valid()
      modifies this
      ensures Valid() && i == old(i) + PastEndTag(old(Rest()), name)
    {
      hide PastEndTag, IndexFold, ClosesHere;
      var want := EndTag(name);
      var rest := src[i..];
      var off: nat := 0;
      assert rest[0..] == rest;
      while true
        invariant i == old(i) && off <= |rest|
        invariant PastEndTag(rest, name) == off + PastEndTag(rest[off..], name)
        decreases |rest| - off
      {
        var j := FindFold(rest[off..], want);
        FoldedFirst(rest[off..], name);
        if j < 0 {
          i := |src|;
          return;
        }
        Drop(rest, off, j);
        var at := off + j + |want|;
        NameEnds(rest[off + j..], name);
        if at < |rest| && !IsTagNameEnd(rest[at]) {
          Drop(rest, off + j, 1);
          off := off + j + 1;
          continue;
        }
        i := i + at;
        return;
      }
    }

    method ReadTag() returns (tag: Option<Tag>, selfClosing: bool)
      requires Valid()
      modifies this
      ensures Valid() && old(i) <= i
      ensures TagRead(tag, selfClosing, i - old(i)) == MarkupScan.ReadTag(old(Rest()), lib)
    {
      hide Unescaped, Lowered, ReadAttrs, MarkupScan.ReadAttr, FirstOfEach, Span;
      var start := i;
      ghost var rest := Rest();
      SkipSpan(IsTagNameEnd);
      if i == start {
        return None, false;
      }
      var name := Lowered(lib, src[start..i]);
      ghost var named := i;
      assert src[start..i] == rest[..i - start] && src[i..] == rest[i - start..];
      var attrs: map<bytes, bytes>;
      attrs, selfClosing := ReadAttrList();
      return Some(Tag(name, attrs)), selfClosing;
    }

    method ReadAttrList() returns (attrs: map<bytes, bytes>, selfClosing: bool)
      requires Valid()
      modifies this
      ensures Valid()
      ensures var r := ReadAttrs(old(Rest()), lib);
              attrs == FirstOfEach(r.attrs) && selfClosing == r.closing && i == old(i) + r.read
    {
      hide Unescaped, Lowered, ReadAttrs, MarkupScan.ReadAttr, FirstOfEach, Span, Onward, NotSpace;
      attrs := map[];
      ghost var start := i;
      ghost var read: seq<Attr> := [];
      NoneRead(src, start, lib);
      while true
        invariant start <= i <= |src|
        invariant attrs == FirstOfEach(read)
        invariant Onward(src, start, lib, read, i)
        decreases |src| - i
      {
        ghost var before := i;
        SkipSpan(NotSpace);
        StopsAt(src, start, lib, read, before, i);
        if i >= |src| {
          return attrs, false;
        }
        if src[i] == GREATER {
          i := i + 1;
          return attrs, false;
        }
        if src[i] == SLASH {
          i := i + 1;
          if i < |src| && src[i] == GREATER {
            i := i + 1;
            return attrs, true;
          }
          continue;
        }
        AttrAt(src, start, lib, read, before, i);
        var attr := ReadAttr();
        if attr.key == [] {
          i := i + 1;
          continue;
        }
        AddFirst(read, attr);
        if attr.key !in attrs {
          attrs := attrs[attr.key := attr.value];
        }
        read := read + [attr];
      }
    }

    method ReadAttr() returns (attr: Attr)
      requires Valid()
      modifies this
      ensures Valid() && old(i) <= i
      ensures AttrRead(attr, i - old(i)) == MarkupScan.ReadAttr(old(Rest()), lib)
    {
      hide Unescaped, Lowered, Span, ReadGiven, IsAttrNameEnd;
      var start := i;
      ghost var rest := Rest();
      SkipSpan(IsAttrNameEnd);
      if i == start {
        return Attr([], []);
      }
      var key := Lowered(lib, src[start..i]);
      assert src[start..i] == rest[..i - start];
      assert src[i..] == rest[i - start..];
      var value := ReadGivenValue();
      return Attr(key, value);
    }

    method ReadGivenValue() returns (value: bytes)
      requires Valid()
      modifies this
      ensures Valid() && old(i) <= i
      ensures ValueRead(value, i - old(i)) == ReadGiven(old(Rest()), lib)
    {
      hide Unescaped, Lowered, Span, MarkupScan.ReadValue;
      ghost var start, rest := i, Rest();
      SkipSpan(NotSpace);
      if i >= |src| || src[i] != EQUALS {
        return [];
      }
      i := i + 1;
      Drop(src, start, i - start);
      SkipSpan(NotSpace);
      Drop(src, start, i - start);
      if i >= |src| {
        NoValue(Rest(), lib);
        return [];
      }
      value := ReadValue();
    }

    method ReadValue() returns (value: bytes)
      requires Valid() && i < |src|
      modifies this
      ensures Valid() && old(i) <= i
      ensures ValueRead(value, i - old(i)) == MarkupScan.ReadValue(old(Rest()), lib)
    {
      hide Unescaped, Lowered, Span, Only, IsUnquotedEnd, MarkupScan.ReadValue;
      var q := src[i];
      ghost var from := i;
      var start := i;
      if q == DOUBLE_QUOTE || q == SINGLE_QUOTE {
        i := i + 1;
        start := i;
        SkipSpan(Only(q));
        value := src[start..i];
        QuotedAt(src, from, i, lib);
        if i < |src| {
          i := i + 1;
        }
      } else {
        SkipSpan(IsUnquotedEnd);
        value := src[start..i];
        UnquotedAt(src, from, i, lib);
      }
      return Unescaped(lib, value);
    }

    /** The next tag, with the cursor past it and past its text if that is raw; none means
        there are no more. */
    method Next() returns (tag: Option<Tag>)
      requires Valid()
      modifies this
      ensures Valid() && old(i) <= i
      ensures tag.Some? ==> i >= old(i) + 2 && Tags(old(Rest()), lib) == [tag.value] + Tags(Rest(), lib)
      ensures tag.None? ==> Tags(old(Rest()), lib) == []
    {
      hide AfterLess, Index, Tags, NextStep;
      while true
        invariant old(i) <= i <= |src|
        invariant Tags(old(Rest()), lib) == Tags(src[i..], lib)
        decreases |src| - i
      {
        ghost var rest, from := src[i..], i;
        TagsHere(rest, lib);
        StepHere(rest, lib);
        var j := Index(src[i..], [LESS]);
        if j < 0 {
          return None;
        }
        i := i + j + 1;
        Drop(src, from, j + 1);
        var found := Dispatch();
        Drop(src, from, i - from);
        if found.Some? {
          return found;
        }
      }
    }

    /** The cases of the scan, just after a "<". */
    method Dispatch() returns (found: Option<Tag>)
      requires Valid()
      modifies this
      ensures Valid() && old(i) <= i && Step(found, i - old(i)) == AfterLess(old(Rest()), lib)
    {
      hide MarkupScan.ReadTag, PastNext, PastEndTag;
      ghost var t, from := Rest(), i;
      if Has(OPEN_COMMENT) {
        Drop(src, from, 3);
        i := i + |OPEN_COMMENT|;
        SkipTo(CLOSE_COMMENT);
        return None;
      }
      if Has([BANG]) || Has([QUESTION]) {
        SkipTo([GREATER]);
        return None;
      }
      if Has([SLASH]) {
        SkipTo([GREATER]);
        return None;
      }
      var selfClosing;
      found, selfClosing := ReadTag();
      if found.Some? && found.value.name in RAW_TEXT && !selfClosing {
        Drop(src, from, i - from);
        SkipToEndTag(found.value.name);
      }
    }

    /** Every tag, by calling until there are no more. */
    method All() returns (tags: seq<Tag>)
      requires Valid()
      modifies this
      ensures Valid() && tags == Tags(old(Rest()), lib)
    {
      tags := [];
      while true
        invariant Valid() && Tags(old(Rest()), lib) == tags + Tags(Rest(), lib)
        decreases |src| - i
      {
        var tag := Next();
        if tag.None? {
          return;
        }
        tags := tags + [tag.value];
      }
    }
  }

  /** What is left to read at `at` completes what was read since `start`. */
  ghost predicate Onward(src: bytes, start: nat, lib: Library, read: seq<Attr>, at: nat) {
    && start <= at <= |src|
    && var left := ReadAttrs(src[at..], lib);
       ReadAttrs(src[start..], lib) == AttrsRead(read + left.attrs, left.closing, at - start + left.read)
  }

  lemma Passes(src: bytes, start: nat, lib: Library, read: seq<Attr>, at: nat, to: nat)
    requires Onward(src, start, lib, read, at) && at <= to <= |src|
    requires ReadAttrs(src[at..], lib) == Passed(to - at, ReadAttrs(src[to..], lib))
    ensures Onward(src, start, lib, read, to)
  {
    hide ReadAttrs;
  }

  lemma Adds(src: bytes, start: nat, lib: Library, read: seq<Attr>, at: nat, attr: Attr, to: nat)
    requires Onward(src, start, lib, read, at) && at <= to <= |src|
    requires ReadAttrs(src[at..], lib) == Added(attr, Passed(to - at, ReadAttrs(src[to..], lib)))
    ensures Onward(src, start, lib, read + [attr], to)
  {
    hide ReadAttrs;
    var more := ReadAttrs(src[to..], lib).attrs;
    assert read + ([attr] + more) == (read + [attr]) + more;
  }

  lemma NoneRead(src: bytes, start: nat, lib: Library)
    requires start <= |src|
    ensures FirstOfEach([]) == map[]
    ensures Onward(src, start, lib, [], start)
  {
    var all := ReadAttrs(src[start..], lib).attrs;
    assert [] + all == all;
  }

  /** All that was read since `start`, to the end of the tag. */
  ghost predicate Whole(src: bytes, start: nat, lib: Library, read: seq<Attr>, closing: bool, end: nat) {
    start <= end <= |src| && ReadAttrs(src[start..], lib) == AttrsRead(read, closing, end - start)
  }

  /** Past the space at `at` the tag ends, or a stray "/" is passed over. */
  lemma StopsAt(src: bytes, start: nat, lib: Library, read: seq<Attr>, at: nat, k: nat)
    requires Onward(src, start, lib, read, at) && k == at + Span(src[at..], NotSpace)
    ensures k == |src| ==> Whole(src, start, lib, read, false, k)
    ensures k < |src| && src[k] == GREATER ==> Whole(src, start, lib, read, false, k + 1)
    ensures k < |src| && src[k] == SLASH ==>
              if k + 1 < |src| && src[k + 1] == GREATER then Whole(src, start, lib, read, true, k + 2)
              else Onward(src, start, lib, read, k + 1)
  {
    hide Unescaped, Lowered, Span, ReadAttrs;
    AttrsHere(src[at..], lib, k - at);
    assert read + [] == read;
    if k < |src| {
      Drop(src, at, k + 1 - at);
    }
  }

  lemma AttrShift(src: bytes, at: nat, lib: Library, k: nat)
    requires at <= |src| && k == at + Span(src[at..], NotSpace) < |src| && src[k] != GREATER && src[k] != SLASH
    ensures var r := MarkupScan.ReadAttr(src[k..], lib);
            ReadAttrs(src[at..], lib) ==
            if r.read == 0 then Passed(k + 1 - at, ReadAttrs(src[k + 1..], lib))
            else Added(r.attr, Passed(k + r.read - at, ReadAttrs(src[k + r.read..], lib)))
  {
    hide Unescaped, Lowered, Span, MarkupScan.ReadAttr, ReadAttrs, Passed, Added;
    AttrHere(src[at..], lib, k - at);
    Drop(src, at, k - at);
    Drop(src, at, k + 1 - at);
    Drop(src, at, k - at + MarkupScan.ReadAttr(src[k..], lib).read);
  }

  /** Or an attribute is read, or a byte that cannot start one is passed over. */
  lemma AttrAt(src: bytes, start: nat, lib: Library, read: seq<Attr>, at: nat, k: nat)
    requires start <= at <= |src| && Onward(src, start, lib, read, at)
    requires k == at + Span(src[at..], NotSpace) < |src| && src[k] != GREATER && src[k] != SLASH
    ensures var r := MarkupScan.ReadAttr(src[k..], lib);
            if r.read == 0 then Onward(src, start, lib, read, k + 1)
            else Onward(src, start, lib, read + [r.attr], k + r.read)
  {
    hide Unescaped, Lowered, Span, MarkupScan.ReadAttr, ReadAttrs, Onward, Passed, Added;
    var r := MarkupScan.ReadAttr(src[k..], lib);
    AttrShift(src, at, lib, k);
    if r.read > 0 {
      Adds(src, start, lib, read, at, r.attr, k + r.read);
    } else {
      Passes(src, start, lib, read, at, k + 1);
    }
  }

  lemma QuotedAt(src: bytes, at: nat, end: nat, lib: Library)
    requires at < |src| && (src[at] == DOUBLE_QUOTE || src[at] == SINGLE_QUOTE)
    requires end == at + 1 + Span(src[at + 1..], Only(src[at]))
    ensures MarkupScan.ReadValue(src[at..], lib) ==
            ValueRead(Unescaped(lib, src[at + 1..end]), (if end < |src| then end + 1 else end) - at)
  {
    hide Unescaped, Lowered, Span, Only;
    Drop(src, at, 1);
    assert src[at..][1..end - at] == src[at + 1..end];
  }

  lemma UnquotedAt(src: bytes, at: nat, end: nat, lib: Library)
    requires at < |src| && src[at] != DOUBLE_QUOTE && src[at] != SINGLE_QUOTE
    requires end == at + Span(src[at..], IsUnquotedEnd)
    ensures MarkupScan.ReadValue(src[at..], lib) == ValueRead(Unescaped(lib, src[at..end]), end - at)
  {
    hide Unescaped, Lowered, Span, IsUnquotedEnd;
    assert src[at..][..end - at] == src[at..end];
  }

  lemma NoValue(s: bytes, lib: Library)
    requires s == []
    ensures MarkupScan.ReadValue(s, lib) == ValueRead([], 0)
  {}

  lemma AddFirst(attrs: seq<Attr>, attr: Attr)
    ensures var m := FirstOfEach(attrs);
            FirstOfEach(attrs + [attr]) == if attr.key in m then m else m[attr.key := attr.value]
  {
    FirstWins(attrs, [attr]);
    assert FirstOfEach([attr]) == map[attr.key := attr.value];
  }

  /** Where the name of a closing tag is first found, in any case, no closing tag has
      started before. */
  lemma {:induction false} FoldedFirst(s: bytes, name: bytes)
    ensures var j := IndexFold(s, EndTag(name));
            && (j < 0 ==> PastEndTag(s, name) == |s|)
            && (j >= 0 ==>
                  && PastEndTag(s, name) == j + PastEndTag(s[j..], name)
                  && Folded(s[j..][..|EndTag(name)|]) == Folded(EndTag(name)))
  {
    var want := EndTag(name);
    var h, n := Folded(s), Folded(want);
    if |want| <= |s| {
      assert h[..|n|] == Folded(s[..|want|]);
      if h[..|n|] != n {
        assert h[1..] == Folded(s[1..]);
        FoldedFirst(s[1..], name);
        var j := IndexFold(s, want);
        assert j >= 0 ==> s[j..] == s[1..][j - 1..];
      } else {
        assert s[0..] == s;
      }
    } else {
      TooShort(s, name);
    }
  }

  /** Where the name is found, whether it ends there decides. */
  lemma NameEnds(s: bytes, name: bytes)
    requires |EndTag(name)| <= |s| && Folded(s[..|EndTag(name)|]) == Folded(EndTag(name))
    ensures var n := |EndTag(name)|;
            PastEndTag(s, name) == if n < |s| && !IsTagNameEnd(s[n]) then 1 + PastEndTag(s[1..], name) else n
  {}

  lemma {:induction false} TooShort(s: bytes, name: bytes)
    requires |s| < |EndTag(name)|
    ensures PastEndTag(s, name) == |s|
  {
    if s != [] {
      TooShort(s[1..], name);
    }
  }
}
