/** Names on the wire (internal/dnsclient/parse.go and dnsclient.go; section 4.1.4 of RFC 1035). */
module WireName {
  import opened Bytes
  import opened Options

  const MAX_NAME := 255
  const MAX_LABEL := 63
  const MAX_POINTERS := 16
  const MAX_NAME_LENGTH := 253

  // ---- Labels ----

  /** Labels in wire form, each behind its length. */
  function PutLabels(labels: seq<bytes>): bytes
    requires Labels(labels)
  {
    if labels == [] then [] else [|labels[0]|] + labels[0] + PutLabels(labels[1..])
  }

  predicate Labels(labels: seq<bytes>) {
    forall i :: 0 <= i < |labels| ==> 1 <= |labels[i]| <= MAX_LABEL
  }

  /** A whole name: its labels and the root. */
  function Wire(labels: seq<bytes>): bytes
    requires Labels(labels)
  {
    PutLabels(labels) + [0]
  }

  // ---- What a name in a message stands for ----

  /** The labels a name expands to from `at`, following its pointers, and how many it
      followed. `length` is what the labels before these took. No cap on pointers is
      needed for this to end: a label adds to the length, a pointer goes back. */
  function Expand(raw: bytes, at: nat, length: nat): (r: Option<(seq<bytes>, nat)>)
    requires length <= MAX_NAME
    ensures r.Some? ==> Labels(r.value.0) && length + |PutLabels(r.value.0)| <= MAX_NAME
    decreases MAX_NAME - length, at
  {
    if at >= |raw| then None
    else
      var size := raw[at];
      if size == 0 then Some(([], 0))
      else if size >= 0xC0 then
        if at + 2 > |raw| || U16(raw, at) % 16384 >= at then None
        else
          match Expand(raw, U16(raw, at) % 16384, length)
          case None => None
          case Some((labels, hops)) => Some((labels, hops + 1))
      else if size > MAX_LABEL || length + size + 1 > MAX_NAME || at + 1 + size > |raw| then None
      else
        match Expand(raw, at + 1 + size, length + size + 1)
        case None => None
        case Some((labels, hops)) =>
          var piece := Folded(raw[at + 1..at + 1 + size]);
          assert ([piece] + labels)[1..] == labels;
          Some(([piece] + labels, hops))
  }

  /** Where the record goes on: after the root, or after the first pointer. */
  function After(raw: bytes, at: nat): nat
    decreases |raw| - at
  {
    if at >= |raw| then at
    else if raw[at] == 0 then at + 1
    else if raw[at] >= 0xC0 then at + 2
    else After(raw, at + 1 + raw[at])
  }

  /** Reading a name is expanding it, so long as it follows no more than sixteen pointers. */
  function Name(raw: bytes, at: nat): Option<(bytes, nat)> {
    match Expand(raw, at, 0)
    case None => None
    case Some((labels, hops)) => if hops > MAX_POINTERS then None else Some((Wire(labels), After(raw, at)))
  }

  /** What the walk comes to from `at`, with `pointers` followed and `name` collected. */
  function Outcome(raw: bytes, at: nat, length: nat, pointers: nat, name: bytes, end: nat): Option<(bytes, nat)>
    requires length <= MAX_NAME
  {
    match Expand(raw, at, length)
    case None => None
    case Some((labels, hops)) => if pointers + hops > MAX_POINTERS then None else Some((name + Wire(labels), end))
  }

  method ReadName(raw: bytes, from: nat) returns (r: Option<(bytes, nat)>)
    ensures r == Name(raw, from)
  {
    hide Expand, Outcome;
    var offset := from;
    var start := from;
    var pointers := 0;
    var length := 0;
    var name: bytes := [];
    StartStep(raw, from);
    while true
      invariant 0 <= length <= MAX_NAME && 0 <= pointers <= MAX_POINTERS && 0 <= offset
      invariant After(raw, from) == if pointers > 0 then start else After(raw, offset)
      invariant Name(raw, from) == Outcome(raw, offset, length, pointers, name, After(raw, from))
      decreases MAX_POINTERS - pointers, |raw| - offset
    {
      ghost var end := After(raw, from);
      ErrorStep(raw, offset, length, pointers, name, end);
      if offset >= |raw| {
        return None;
      }
      var size := raw[offset];
      if size == 0 {
        RootStep(raw, offset, length, pointers, name, end);
        name := name + [0];
        if pointers > 0 {
          return Some((name, start));
        }
        return Some((name, offset + 1));
      } else if size >= 0xC0 {
        if offset + 2 > |raw| {
          return None;
        }
        var target := U16(raw, offset) % 16384;
        if target >= offset {
          return None;
        }
        PointerStep(raw, offset, length, pointers, name, end);
        pointers := pointers + 1;
        if pointers > MAX_POINTERS {
          return None;
        }
        if pointers == 1 {
          start := offset + 2;
        }
        offset := target;
      } else if size <= MAX_LABEL {
        length := length + size + 1;
        if length > MAX_NAME {
          return None;
        }
        if offset + 1 + size > |raw| {
          return None;
        }
        LabelStep(raw, offset, length - size - 1, pointers, name, end);
        name := name + [size];
        name := name + Folded(raw[offset + 1..offset + 1 + size]);
        offset := offset + 1 + size;
      } else {
        return None;
      }
    }
  }

  lemma StartStep(raw: bytes, from: nat)
    ensures Name(raw, from) == Outcome(raw, from, 0, 0, [], After(raw, from))
  {
    if Expand(raw, from, 0).Some? {
      assert [] + Wire(Expand(raw, from, 0).value.0) == Wire(Expand(raw, from, 0).value.0);
    }
  }

  predicate Broken(raw: bytes, at: nat, length: nat) {
    || at >= |raw|
    || (raw[at] >= 0xC0 && (at + 2 > |raw| || U16(raw, at) % 16384 >= at))
    || MAX_LABEL < raw[at] < 0xC0
    || (0 < raw[at] <= MAX_LABEL && (length + raw[at] + 1 > MAX_NAME || at + 1 + raw[at] > |raw|))
  }

  lemma ErrorStep(raw: bytes, at: nat, length: nat, pointers: nat, name: bytes, end: nat)
    requires length <= MAX_NAME
    ensures Broken(raw, at, length) ==> Outcome(raw, at, length, pointers, name, end) == None
  {}

  lemma RootStep(raw: bytes, at: nat, length: nat, pointers: nat, name: bytes, end: nat)
    requires length <= MAX_NAME && pointers <= MAX_POINTERS && at < |raw| && raw[at] == 0
    ensures Outcome(raw, at, length, pointers, name, end) == Some((name + [0], end))
  {
    assert Wire([]) == [0];
  }

  lemma PointerStep(raw: bytes, at: nat, length: nat, pointers: nat, name: bytes, end: nat)
    requires length <= MAX_NAME && at + 2 <= |raw| && raw[at] >= 0xC0 && U16(raw, at) % 16384 < at
    ensures Outcome(raw, at, length, pointers, name, end)
            == Outcome(raw, U16(raw, at) % 16384, length, pointers + 1, name, end)
    ensures pointers >= MAX_POINTERS ==> Outcome(raw, at, length, pointers, name, end) == None
  {}

  lemma LabelStep(raw: bytes, at: nat, length: nat, pointers: nat, name: bytes, end: nat)
    requires at < |raw| && 0 < raw[at] <= MAX_LABEL && length + raw[at] + 1 <= MAX_NAME && at + 1 + raw[at] <= |raw|
    ensures var size := raw[at];
            Outcome(raw, at, length, pointers, name, end)
            == Outcome(raw, at + 1 + size, length + size + 1, pointers,
                name + [size] + Folded(raw[at + 1..at + 1 + size]), end)
  {
    var size := raw[at];
    if Expand(raw, at + 1 + size, length + size + 1).Some? {
      PutMore(name, Folded(raw[at + 1..at + 1 + size]), Expand(raw, at + 1 + size, length + size + 1).value.0);
    }
  }

  lemma PutMore(name: bytes, piece: bytes, labels: seq<bytes>)
    requires Labels(labels) && 1 <= |piece| <= MAX_LABEL
    ensures Labels([piece] + labels)
    ensures name + Wire([piece] + labels) == (name + [|piece|]) + piece + Wire(labels)
  {
    assert ([piece] + labels)[1..] == labels;
  }

  // ---- A name written out reads back ----

  function FoldedLabels(labels: seq<bytes>): (r: seq<bytes>)
    ensures |r| == |labels| && forall i :: 0 <= i < |labels| ==> r[i] == Folded(labels[i])
  {
    seq(|labels|, i requires 0 <= i < |labels| => Folded(labels[i]))
  }

  /** Folding a name folds its labels: a length is never a letter. */
  lemma {:induction false} FoldedWire(labels: seq<bytes>)
    requires Labels(labels)
    ensures Labels(FoldedLabels(labels)) && Folded(PutLabels(labels)) == PutLabels(FoldedLabels(labels))
    ensures Folded(Wire(labels)) == Wire(FoldedLabels(labels))
  {
    if labels != [] {
      FoldedWire(labels[1..]);
      assert FoldedLabels(labels)[1..] == FoldedLabels(labels[1..]);
      assert Folded([|labels[0]|]) == [|labels[0]|];
      FoldedConcat([|labels[0]|], labels[0]);
      FoldedConcat([|labels[0]|] + labels[0], PutLabels(labels[1..]));
    }
    FoldedConcat(PutLabels(labels), [0]);
  }

  /** Where a wire name stands in a message, so do its first label and the rest of it. */
  predicate Stands(raw: bytes, at: nat, part: bytes) {
    at + |part| <= |raw| && raw[at..at + |part|] == part
  }

  lemma StandsParts(raw: bytes, at: nat, a: bytes, b: bytes)
    requires Stands(raw, at, a + b)
    ensures Stands(raw, at, a) && Stands(raw, at + |a|, b)
  {
    assert raw[at..at + |a|] == (a + b)[..|a|] == a;
    assert raw[at + |a|..at + |a| + |b|] == (a + b)[|a|..] == b;
  }

  lemma WireStands(raw: bytes, at: nat, labels: seq<bytes>)
    requires Labels(labels) && Stands(raw, at, Wire(labels))
    ensures at < |raw| && raw[at] == if labels == [] then 0 else |labels[0]|
    ensures labels != [] ==>
              var size := |labels[0]|;
              Stands(raw, at + 1 + size, Wire(labels[1..])) && raw[at + 1..at + 1 + size] == labels[0]
              && |Wire(labels)| == 1 + size + |Wire(labels[1..])|
  {
    var wire := Wire(labels);
    assert wire[0] == raw[at..at + |wire|][0] == raw[at];
    if labels != [] {
      var size, more := |labels[0]|, Wire(labels[1..]);
      assert wire == [size] + (labels[0] + more);
      StandsParts(raw, at, [size], labels[0] + more);
      StandsParts(raw, at + 1, labels[0], more);
    }
  }

  lemma ExpandHere(raw: bytes, at: nat, length: nat)
    requires at < |raw| && raw[at] <= MAX_LABEL && at + 1 + raw[at] <= |raw| && length <= MAX_NAME
    ensures var size := raw[at];
            && (size == 0 ==> Expand(raw, at, length) == Some(([], 0)))
            && (size > 0 && length + size + 1 > MAX_NAME ==> Expand(raw, at, length) == None)
            && (size > 0 && length + size + 1 <= MAX_NAME ==>
                  var rest := Expand(raw, at + 1 + size, length + size + 1);
                  Expand(raw, at, length) ==
                  if rest.None? then None
                      else Some(([Folded(raw[at + 1..at + 1 + size])] + rest.value.0, rest.value.1)))
  {
    hide Folded;
  }

  /** Labels written out expand to themselves exactly when they fit. */
  lemma {:induction false} ExpandWire(raw: bytes, at: nat, labels: seq<bytes>, length: nat)
    requires Labels(labels) && length <= MAX_NAME && Stands(raw, at, Wire(labels))
    ensures Expand(raw, at, length) ==
            if length + |PutLabels(labels)| <= MAX_NAME then Some((FoldedLabels(labels), 0)) else None
    decreases |labels|
  {
    hide Expand, Wire;
    WireStands(raw, at, labels);
    ExpandHere(raw, at, length);
    if labels == [] {
      assert FoldedLabels(labels) == [];
    } else {
      var size := |labels[0]|;
      if length + size + 1 <= MAX_NAME {
        ExpandWire(raw, at + 1 + size, labels[1..], length + size + 1);
        assert FoldedLabels(labels) == [Folded(labels[0])] + FoldedLabels(labels[1..]);
      }
    }
  }

  lemma {:induction false} AfterWire(raw: bytes, at: nat, labels: seq<bytes>)
    requires Labels(labels) && Stands(raw, at, Wire(labels))
    ensures After(raw, at) == at + |Wire(labels)|
    decreases |labels|
  {
    WireStands(raw, at, labels);
    if labels != [] {
      AfterWire(raw, at + 1 + |labels[0]|, labels[1..]);
    }
  }

  // ---- A name that ends with a pointer ----

  /** Labels and then a pointer: two bytes, of which the last fourteen bits are where it points. */
  function PutPointer(labels: seq<bytes>, to: nat): bytes
    requires Labels(labels) && to < 16384
  {
    PutLabels(labels) + [0xC0 + to / 256, to % 256]
  }

  lemma PointerStands(raw: bytes, at: nat, labels: seq<bytes>, to: nat)
    requires Labels(labels) && to < 16384 && Stands(raw, at, PutPointer(labels, to))
    ensures labels == [] ==> at + 2 <= |raw| && raw[at] == 0xC0 + to / 256 && raw[at + 1] == to % 256
    ensures labels != [] ==>
              var size := |labels[0]|;
              && at + 1 + size <= |raw| && raw[at] == size && raw[at + 1..at + 1 + size] == labels[0]
              && Stands(raw, at + 1 + size, PutPointer(labels[1..], to))
              && |PutPointer(labels, to)| == 1 + size + |PutPointer(labels[1..], to)|
  {
    var wire := PutPointer(labels, to);
    assert wire[0] == raw[at..at + |wire|][0] == raw[at];
    if labels == [] {
      assert wire[1] == raw[at..at + |wire|][1] == raw[at + 1];
    } else {
      var size, more := |labels[0]|, PutPointer(labels[1..], to);
      assert wire == [size] + (labels[0] + more);
      StandsParts(raw, at, [size], labels[0] + more);
      StandsParts(raw, at + 1, labels[0], more);
    }
  }

  /** The record goes on after the pointer, wherever that points. */
  lemma {:induction false} AfterPointer(raw: bytes, at: nat, labels: seq<bytes>, to: nat)
    requires Labels(labels) && to < 16384 && Stands(raw, at, PutPointer(labels, to))
    ensures After(raw, at) == at + |PutLabels(labels)| + 2
    decreases |labels|
  {
    PointerStands(raw, at, labels, to);
    if labels != [] {
      AfterPointer(raw, at + 1 + |labels[0]|, labels[1..], to);
    }
  }

  lemma PointerHere(raw: bytes, at: nat, length: nat, to: nat)
    requires length <= MAX_NAME && to < at && to < 16384
    requires at + 2 <= |raw| && raw[at] == 0xC0 + to / 256 && raw[at + 1] == to % 256
    ensures var rest := Expand(raw, to, length);
            Expand(raw, at, length) == if rest.None? then None else Some((rest.value.0, rest.value.1 + 1))
  {
    assert U16(raw, at) == 0xC000 + to;
  }

  /** The name is the labels and the name that stands where the pointer points. */
  lemma {:induction false} ExpandPointer(raw: bytes, at: nat, labels: seq<bytes>, to: nat, length: nat)
    requires Labels(labels) && length <= MAX_NAME && to < at && to < 16384 && Stands(raw, at, PutPointer(labels, to))
    ensures var n := length + |PutLabels(labels)|;
            Expand(raw, at, length) ==
            if n > MAX_NAME || Expand(raw, to, n).None? then None
            else Some((FoldedLabels(labels) + Expand(raw, to, n).value.0, Expand(raw, to, n).value.1 + 1))
    decreases |labels|
  {
    hide Expand;
    PointerStands(raw, at, labels, to);
    if labels == [] {
      PointerHere(raw, at, length, to);
      assert FoldedLabels(labels) == [];
      if Expand(raw, to, length).Some? {
        assert [] + Expand(raw, to, length).value.0 == Expand(raw, to, length).value.0;
      }
    } else {
      var size := |labels[0]|;
      ExpandHere(raw, at, length);
      if length + size + 1 <= MAX_NAME {
        ExpandPointer(raw, at + 1 + size, labels[1..], to, length + size + 1);
        MoreFolded(labels, raw, to, length + |PutLabels(labels)|);
      }
    }
  }

  lemma MoreFolded(labels: seq<bytes>, raw: bytes, to: nat, n: nat)
    requires labels != []
    ensures forall rest: seq<bytes> ::
              [Folded(labels[0])] + (FoldedLabels(labels[1..]) + rest) == FoldedLabels(labels) + rest
  {
    assert FoldedLabels(labels) == [Folded(labels[0])] + FoldedLabels(labels[1..]);
  }

  lemma {:induction false} LabelsConcat(a: seq<bytes>, b: seq<bytes>)
    requires Labels(a) && Labels(b)
    ensures Labels(a + b) && PutLabels(a + b) == PutLabels(a) + PutLabels(b)
    ensures FoldedLabels(a + b) == FoldedLabels(a) + FoldedLabels(b)
  {
    hide Labels, PutLabels, FoldedLabels;
    if a == [] {
      assert a + b == b;
      NoneBefore(b);
    } else {
      assert [a[0]] + a[1..] == a;
      FirstLabel(a[0], a[1..]);
      LabelsConcat(a[1..], b);
      assert a + b == [a[0]] + (a[1..] + b);
      FirstLabel(a[0], a[1..] + b);
      var x, y, z := [|a[0]|] + a[0], PutLabels(a[1..]), PutLabels(b);
      assert x + (y + z) == x + y + z;
      var f, g, h := [Folded(a[0])], FoldedLabels(a[1..]), FoldedLabels(b);
      assert f + (g + h) == f + g + h;
    }
  }

  lemma NoneBefore(b: seq<bytes>)
    requires Labels(b)
    ensures Labels([]) && PutLabels([]) + PutLabels(b) == PutLabels(b)
    ensures FoldedLabels([]) + FoldedLabels(b) == FoldedLabels(b)
  {}

  lemma FirstLabel(l: bytes, more: seq<bytes>)
    requires Labels([l] + more) || (0 < |l| <= 63 && Labels(more))
    ensures 0 < |l| <= 63 && Labels([l] + more) && Labels(more)
    ensures PutLabels([l] + more) == [|l|] + l + PutLabels(more)
    ensures FoldedLabels([l] + more) == [Folded(l)] + FoldedLabels(more)
  {
    hide FoldedLabels, PutLabels;
    var all := [l] + more;
    LabelsApart(l, more);
    assert all[0] == l && all[1..] == more;
    PutFirst(all);
    assert FoldedLabels(all) == [Folded(l)] + FoldedLabels(more);
  }

  lemma LabelsApart(l: bytes, more: seq<bytes>)
    ensures Labels([l] + more) <==> 0 < |l| <= 63 && Labels(more)
  {
    var all := [l] + more;
    assert all[0] == l && forall i :: 0 <= i < |more| ==> more[i] == all[i + 1];
  }

  lemma PutFirst(all: seq<bytes>)
    requires Labels(all) && all != []
    ensures Labels(all[1..]) && PutLabels(all) == [|all[0]|] + all[0] + PutLabels(all[1..])
  {}

  /** A name whose end stands earlier in the message: it reads as if written in full, and the
      record goes on after the pointer. */
  lemma CompressedName(raw: bytes, at: nat, labels: seq<bytes>, to: nat, suffix: seq<bytes>)
    requires Labels(labels) && Labels(suffix) && to < at && to < 16384
    requires Stands(raw, at, PutPointer(labels, to)) && Stands(raw, to, Wire(suffix))
    ensures Labels(labels + suffix) && Labels(FoldedLabels(labels + suffix))
    ensures Name(raw, at) ==
            if |PutLabels(labels + suffix)| <= 255
            then Some((Wire(FoldedLabels(labels + suffix)), at + |PutLabels(labels)| + 2)) else None
  {
    hide Expand, After, PutLabels, Wire;
    LabelsConcat(labels, suffix);
    FoldedWire(labels + suffix);
    ExpandPointer(raw, at, labels, to, 0);
    AfterPointer(raw, at, labels, to);
    if |PutLabels(labels)| <= MAX_NAME {
      ExpandWire(raw, to, suffix, |PutLabels(labels)|);
    }
  }

  /** A name in pieces: the first in full, each later one ended by a pointer to the one before it. */
  ghost predicate InPieces(raw: bytes, at: seq<nat>, pieces: seq<seq<bytes>>) {
    && |at| == |pieces| > 0 && (forall i :: 0 <= i < |at| ==> Labels(pieces[i]))
    && Stands(raw, at[0], Wire(pieces[0]))
    && forall i :: 0 < i < |at| ==> PointsBack(raw, at[i], pieces[i], at[i - 1])
  }

  predicate PointsBack(raw: bytes, at: nat, labels: seq<bytes>, to: nat) {
    to < at && to < 16384 && Labels(labels) && Stands(raw, at, PutPointer(labels, to))
  }

  function Joined(pieces: seq<seq<bytes>>): seq<bytes> {
    if pieces == [] then [] else pieces[|pieces| - 1] + Joined(pieces[..|pieces| - 1])
  }

  lemma {:induction false} PiecesExpand(raw: bytes, at: seq<nat>, pieces: seq<seq<bytes>>, length: nat)
    requires InPieces(raw, at, pieces) && length <= 255
    ensures Labels(Joined(pieces))
    ensures Expand(raw, at[|at| - 1], length) ==
            if length + |PutLabels(Joined(pieces))| <= 255 then Some((FoldedLabels(Joined(pieces)), |at| - 1)) else None
    decreases |at|
  {
    hide Expand, Wire, PutLabels, PutPointer;
    var k := |at| - 1;
    if k == 0 {
      OnePiece(pieces);
      ExpandWire(raw, at[0], pieces[0], length);
    } else {
      var n := length + |PutLabels(pieces[k])|;
      var rest := Joined(pieces[..k]);
      PiecesLabels(pieces[..k]);
      LabelsConcat(pieces[k], rest);
      ExpandPointer(raw, at[k], pieces[k], at[k - 1], length);
      if n <= 255 {
        PiecesExpand(raw, at[..k], pieces[..k], n);
      }
    }
  }

  lemma OnePiece(pieces: seq<seq<bytes>>)
    requires |pieces| == 1
    ensures Joined(pieces) == pieces[0]
  {
    assert pieces[..0] == [];
    assert pieces[0] + [] == pieces[0];
  }

  lemma {:induction false} PiecesLabels(pieces: seq<seq<bytes>>)
    requires forall i :: 0 <= i < |pieces| ==> Labels(pieces[i])
    ensures Labels(Joined(pieces))
  {
    hide Labels;
    if pieces == [] {
      NoLabels();
    } else {
      var k := |pieces| - 1;
      PiecesLabels(pieces[..k]);
      LabelsConcat(pieces[k], Joined(pieces[..k]));
    }
  }

  lemma NoLabels()
    ensures Labels([])
  {}

  /** However a name was broken up by pointers, it reads as if written in full, if its labels take at
      most 255 bytes and there are at most sixteen pointers; and the record goes on after the first. */
  lemma PiecesRead(raw: bytes, at: seq<nat>, pieces: seq<seq<bytes>>)
    requires InPieces(raw, at, pieces)
    ensures Labels(Joined(pieces)) && Labels(FoldedLabels(Joined(pieces)))
    ensures var k := |at| - 1;
            Name(raw, at[k]) ==
            if |PutLabels(Joined(pieces))| <= 255 && k <= 16
            then Some((Wire(FoldedLabels(Joined(pieces))), at[k] + |PutLabels(pieces[k])| + if k == 0 then 1 else 2))
            else None
  {
    hide Expand, After, PutLabels, PutPointer;
    var k := |at| - 1;
    PiecesExpand(raw, at, pieces, 0);
    FoldedWire(Joined(pieces));
    if k == 0 {
      AfterWire(raw, at[0], pieces[0]);
    } else {
      AfterPointer(raw, at[k], pieces[k], at[k - 1]);
    }
  }

  lemma FoldTwice(s: bytes)
    ensures Folded(Folded(s)) == Folded(s)
  {}

  lemma {:induction false} ExpandFolded(raw: bytes, at: nat, length: nat)
    requires length <= MAX_NAME && Expand(raw, at, length).Some?
    ensures FoldedLabels(Expand(raw, at, length).value.0) == Expand(raw, at, length).value.0
    decreases MAX_NAME - length, at
  {
    var size := raw[at];
    if size >= 0xC0 {
      ExpandFolded(raw, U16(raw, at) % 16384, length);
    } else if size > 0 {
      ExpandFolded(raw, at + 1 + size, length + size + 1);
      FoldTwice(raw[at + 1..at + 1 + size]);
    }
  }

  lemma {:induction false} AfterBounds(raw: bytes, at: nat, length: nat)
    requires length <= MAX_NAME && Expand(raw, at, length).Some?
    ensures at < After(raw, at) <= |raw|
    decreases |raw| - at
  {
    if 0 < raw[at] < 0xC0 {
      AfterBounds(raw, at + 1 + raw[at], length + raw[at] + 1);
    }
  }

  /** A name that was read is canonical: folded, free of pointers, at most 255 bytes of
      labels and the root, and read again it is itself. The record goes on after where the
      name began and within the message. */
  lemma Canonical(raw: bytes, at: nat)
    requires Name(raw, at).Some?
    ensures var (name, next) := Name(raw, at).value;
            && at < next <= |raw| && 1 <= |name| <= MAX_NAME + 1
            && Folded(name) == name && Name(name, 0) == Some((name, |name|))
  {
    var labels := Expand(raw, at, 0).value.0;
    var name := Wire(labels);
    ExpandFolded(raw, at, 0);
    AfterBounds(raw, at, 0);
    FoldedWire(labels);
    assert name[0..0 + |name|] == name;
    ExpandWire(name, 0, labels, 0);
    AfterWire(name, 0, labels);
  }

  // ---- Text to wire ----

  const DOT := '.' as int

  function Join(labels: seq<bytes>): bytes {
    if labels == [] then []
    else if |labels| == 1 then labels[0]
    else labels[0] + [DOT] + Join(labels[1..])
  }

  /** The pieces between dots; at least one. */
  function Split(text: bytes): (labels: seq<bytes>)
    ensures |labels| >= 1
  {
    if text == [] then [[]]
    else
      var more := Split(text[1..]);
      if text[0] == DOT then [[]] + more else [[text[0]] + more[0]] + more[1..]
  }

  lemma {:induction false} SplitJoin(text: bytes)
    ensures Join(Split(text)) == text
    ensures forall i :: 0 <= i < |Split(text)| ==> DOT !in Split(text)[i]
  {
    if text != [] {
      var more := Split(text[1..]);
      SplitJoin(text[1..]);
      if text[0] == DOT {
        assert ([[]] + more)[1..] == more;
      } else {
        assert ([[text[0]] + more[0]] + more[1..])[1..] == more[1..];
      }
    }
  }

  function Trimmed(text: bytes): bytes {
    if text != [] && text[|text| - 1] == DOT then text[..|text| - 1] else text
  }

  /** A name in wire form before its case is touched. */
  function Encoded(text: bytes): Option<bytes> {
    var name := Trimmed(text);
    if name == [] then Some([0])
    else if |name| > MAX_NAME || !Labels(Split(name)) then None
    else Some(Wire(Split(name)))
  }

  /** Letters change case where the random bits say so. */
  function CaseOf(b: byte, bit: byte): byte {
    if bit % 2 == 0 then b
    else if 'a' as int <= b <= 'z' as int then b - 32
    else if 'A' as int <= b <= 'Z' as int then b + 32
    else b
  }

  method RandomiseCase(name: array<byte>, bits: seq<byte>)
    requires |bits| == name.Length
    modifies name
    ensures forall i :: 0 <= i < name.Length ==> name[i] == CaseOf(old(name[i]), bits[i])
    ensures Folded(name[..]) == Folded(old(name[..]))
  {
    var i := 0;
    while i < name.Length
      invariant 0 <= i <= name.Length
      invariant forall j :: 0 <= j < i ==> name[j] == CaseOf(old(name[j]), bits[j])
      invariant forall j :: i <= j < name.Length ==> name[j] == old(name[j])
    {
      var b := name[i];
      if 'a' as int <= b <= 'z' as int {
        if bits[i] % 2 == 1 {
          name[i] := b - 32;
        }
      } else if 'A' as int <= b <= 'Z' as int {
        if bits[i] % 2 == 1 {
          name[i] := b + 32;
        }
      }
      i := i + 1;
    }
  }

  /** `bits` are the bytes of the random source, one for each byte of the result. */
  method EncodeName(text: bytes, randomise: bool, bits: seq<byte>) returns (r: Option<bytes>)
    requires Encoded(text).Some? ==> |bits| >= |Encoded(text).value|
    ensures r.Some? <==> Encoded(text).Some?
    ensures r.Some? ==> Folded(r.value) == Folded(Encoded(text).value) && |r.value| == |Encoded(text).value|
    ensures r.Some? && (!randomise || Trimmed(text) == []) ==> r == Encoded(text)
  {
    var name := Trimmed(text);
    if name == [] {
      return Some([0]);
    }
    if |name| > MAX_NAME {
      return None;
    }
    var labels := Split(name);
    var out: bytes := [];
    for i := 0 to |labels|
      invariant Labels(labels[..i]) && out == PutLabels(labels[..i])
    {
      if |labels[i]| == 0 || |labels[i]| > MAX_LABEL {
        return None;
      }
      LabelsLast(labels[..i], labels[i]);
      assert labels[..i + 1] == labels[..i] + [labels[i]];
      out := out + [|labels[i]|];
      out := out + labels[i];
    }
    assert labels[..|labels|] == labels;
    out := out + [0];
    if randomise {
      var buffer := new byte[|out|](i requires 0 <= i < |out| => out[i]);
      assert buffer[..] == out;
      RandomiseCase(buffer, bits[..|out|]);
      out := buffer[..];
    }
    return Some(out);
  }

  lemma {:induction false} LabelsLast(labels: seq<bytes>, last: bytes)
    requires Labels(labels) && 1 <= |last| <= MAX_LABEL
    ensures Labels(labels + [last]) && PutLabels(labels + [last]) == PutLabels(labels) + [|last|] + last
  {
    if labels == [] {
      assert labels + [last] == [last];
    } else {
      LabelsLast(labels[1..], last);
      assert (labels + [last])[1..] == labels[1..] + [last];
    }
  }

  // ---- Round trips ----

  /** Bytes that fold to a wire name are a wire name whose labels fold alike. */
  lemma {:induction false} Recased(wire: bytes, labels: seq<bytes>) returns (others: seq<bytes>)
    requires Labels(labels) && Folded(wire) == Folded(Wire(labels))
    ensures Labels(others) && wire == Wire(others) && FoldedLabels(others) == FoldedLabels(labels)
    ensures |PutLabels(others)| == |PutLabels(labels)|
    decreases |labels|
  {
    hide PutLabels, FoldedLabels;
    var plain := Wire(labels);
    WireParts(labels);
    assert |wire| == |plain| && Fold(wire[0]) == Fold(plain[0]);
    if labels == [] {
      others := [];
      assert wire == [0];
    } else {
      var size, more := |labels[0]|, Wire(labels[1..]);
      assert plain == [size] + labels[0] + more;
      var first, rest := wire[1..1 + size], wire[1 + size..];
      FoldedParts(wire, plain, 1, 1 + size);
      FoldedParts(wire, plain, 1 + size, |wire|);
      assert plain[1..1 + size] == labels[0] && plain[1 + size..|wire|] == more && wire[1 + size..|wire|] == rest;
      assert wire == [size] + first + rest;
      var after := Recased(rest, labels[1..]);
      others := [first] + after;
      OneMoreLabel(first, after, labels);
    }
  }

  lemma WireParts(labels: seq<bytes>)
    requires Labels(labels)
    ensures Wire(labels) == if labels == [] then [0] else [|labels[0]|] + labels[0] + Wire(labels[1..])
    ensures labels == [] ==> PutLabels(labels) == [] && FoldedLabels(labels) == []
  {}

  lemma OneMoreLabel(first: bytes, after: seq<bytes>, labels: seq<bytes>)
    requires labels != [] && Labels(labels) && Labels(after) && Folded(first) == Folded(labels[0])
    requires FoldedLabels(after) == FoldedLabels(labels[1..]) && |PutLabels(after)| == |PutLabels(labels[1..])|
    ensures var others := [first] + after;
            && Labels(others) && FoldedLabels(others) == FoldedLabels(labels)
                && |PutLabels(others)| == |PutLabels(labels)|
            && Wire(others) == [|labels[0]|] + first + Wire(after)
  {
    assert |Folded(first)| == |Folded(labels[0])|;
    var others := [first] + after;
    assert others[1..] == after;
    assert FoldedLabels(others) == [Folded(first)] + FoldedLabels(after);
    assert FoldedLabels(labels) == [Folded(labels[0])] + FoldedLabels(labels[1..]);
  }

  lemma FoldedParts(a: bytes, b: bytes, i: nat, j: nat)
    requires Folded(a) == Folded(b) && i <= j <= |a| && |a| == |b|
    ensures Folded(a[i..j]) == Folded(b[i..j])
  {
    assert Folded(a[i..j]) == Folded(a)[i..j] && Folded(b[i..j]) == Folded(b)[i..j];
  }

  lemma {:induction false} SplitLength(text: bytes)
    requires Labels(Split(text))
    ensures |PutLabels(Split(text))| == |text| + 1
  {
    SplitJoin(text);
    JoinLength(Split(text));
  }

  lemma {:induction false} JoinLength(labels: seq<bytes>)
    requires labels != [] && Labels(labels)
    ensures |PutLabels(labels)| == |Join(labels)| + 1
  {
    if |labels| > 1 {
      JoinLength(labels[1..]);
    } else {
      assert PutLabels(labels[1..]) == [];
    }
  }

  lemma EncodedLabels(text: bytes) returns (labels: seq<bytes>)
    requires Encoded(text).Some?
    ensures Labels(labels) && Encoded(text).value == Wire(labels)
    ensures |PutLabels(labels)| <= MAX_NAME <==> |Trimmed(text)| < MAX_NAME
  {
    labels := [];
    assert Wire([]) == [0];
    if Trimmed(text) != [] {
      SplitLength(Trimmed(text));
      labels := Split(Trimmed(text));
    }
  }

  /** A name written out, in whatever case and wherever it stands in a message, reads back
      as its folded self and ends where it was written, if its text is at most 254 bytes.
      Text of 255 bytes is written but not read. */
  lemma RoundTrip(text: bytes, wire: bytes, pre: bytes, tail: bytes)
    requires Encoded(text).Some? && Folded(wire) == Folded(Encoded(text).value)
    ensures Name(pre + wire + tail, |pre|) ==
            if |Trimmed(text)| < MAX_NAME then Some((Folded(wire), |pre| + |wire|)) else None
  {
    hide Encoded, Expand, Wire, PutLabels, After, Trimmed, Labels, FoldedLabels;
    var raw := pre + wire + tail;
    assert raw[|pre|..|pre| + |wire|] == wire;
    var labels := EncodedLabels(text);
    var others := Recased(wire, labels);
    ExpandWire(raw, |pre|, others, 0);
    AfterWire(raw, |pre|, others);
    FoldedWire(others);
  }

  // ---- The bound of RFC 1035 ----

  /** What section 2.3.4 of RFC 1035 allows a name in all, its root included. */
  const RFC_NAME := 255

  /** A name that was read is within the RFC's bound exactly when what it expands to takes
      254 bytes before the root, which is to say 253 with dots between. */
  lemma ReadWithinBound(raw: bytes, at: nat)
    requires Name(raw, at).Some?
    ensures var name, labels := Name(raw, at).value.0, Expand(raw, at, 0).value.0;
            && (|name| <= RFC_NAME <==> |PutLabels(labels)| <= 254)
            && (|name| <= RFC_NAME <==> |Join(labels)| <= 253)
  {
    var labels := Expand(raw, at, 0).value.0;
    if labels != [] {
      JoinLength(labels);
    }
  }

  /** A name that is written is read, and within the RFC's bound, exactly when its text has
      at most 253 bytes. With 254 it is read and over the bound; with 255 it is not read. */
  lemma WrittenWithinBound(text: bytes)
    requires Encoded(text).Some?
    ensures var wire := Encoded(text).value;
            && (Name(wire, 0).Some? && |wire| <= RFC_NAME <==> |Trimmed(text)| <= 253)
            && (Name(wire, 0).Some? && |wire| > RFC_NAME <==> |Trimmed(text)| == 254)
            && (Name(wire, 0).None? <==> |Trimmed(text)| == 255)
  {
    hide Name, Encoded, Trimmed;
    WrittenReads(text);
    EncodedSize(text);
  }

  lemma WrittenReads(text: bytes)
    requires Encoded(text).Some?
    ensures Name(Encoded(text).value, 0).Some? <==> |Trimmed(text)| < 255
  {
    hide Name, Encoded, Trimmed;
    var wire := Encoded(text).value;
    RoundTrip(text, wire, [], []);
    assert [] + wire + [] == wire;
  }

  lemma EncodedSize(text: bytes)
    requires Encoded(text).Some?
    ensures |Trimmed(text)| <= 255
    ensures |Encoded(text).value| == if Trimmed(text) == [] then 1 else |Trimmed(text)| + 2
  {
    if Trimmed(text) != [] {
      SplitLength(Trimmed(text));
    }
  }

  function Letters(n: nat): (s: bytes)
    ensures |s| == n && forall i :: 0 <= i < n ==> s[i] == 'a' as int
  {
    seq(n, _ => 'a' as int)
  }

  const LONG_LABELS: seq<bytes> := [Letters(63), Letters(63), Letters(63), Letters(62)]

  lemma {:induction false} JoinSplit(labels: seq<bytes>)
    requires labels != [] && forall i :: 0 <= i < |labels| ==> DOT !in labels[i]
    ensures Split(Join(labels)) == labels
    decreases |labels|, |labels[0]|
  {
    var first, rest := labels[0], labels[1..];
    if first == [] {
      if rest != [] {
        assert Join(labels)[1..] == Join(rest);
        JoinSplit(rest);
      }
    } else {
      var less := [first[1..]] + rest;
      assert less[1..] == rest;
      assert Join(labels) == [first[0]] + Join(less);
      JoinSplit(less);
      assert [first[0]] + first[1..] == first;
    }
  }

  /** One name of 254 bytes of text: 256 bytes on the wire, one more than the RFC's bound,
      and it is read. */
  lemma LongestName()
    ensures var text := Join(LONG_LABELS);
            && |text| == 254 && Encoded(text) == Some(Wire(LONG_LABELS))
            && |Wire(LONG_LABELS)| == 256 > RFC_NAME
            && Name(Wire(LONG_LABELS), 0) == Some((Wire(LONG_LABELS), 256))
  {
    hide Join, Split, Name, PutLabels, Letters;
    var text := Join(LONG_LABELS);
    JoinSplit(LONG_LABELS);
    JoinLength(LONG_LABELS);
    LongLength();
    assert Trimmed(text) == text;
    WrittenWithinBound(text);
    FoldedWire(LONG_LABELS);
    FoldedLetters(63);
    FoldedLetters(62);
    assert FoldedLabels(LONG_LABELS) == LONG_LABELS;
    RoundTrip(text, Wire(LONG_LABELS), [], []);
    assert [] + Wire(LONG_LABELS) + [] == Wire(LONG_LABELS);
  }

  lemma FoldedLetters(n: nat)
    ensures Folded(Letters(n)) == Letters(n)
  {}

  lemma LongLength()
    ensures |Join(LONG_LABELS)| == 254 && Join(LONG_LABELS)[253] != DOT
  {
    hide Letters;
    assert LONG_LABELS[1..] == [Letters(63), Letters(63), Letters(62)];
    assert LONG_LABELS[1..][1..] == [Letters(63), Letters(62)];
    assert LONG_LABELS[1..][1..][1..] == [Letters(62)];
  }

  // ---- Wire to text ----

  predicate Ordinary(b: byte) {
    || 'a' as int <= b <= 'z' as int || '0' as int <= b <= '9' as int
    || b == DOT || b == '-' as int || b == '_' as int
  }

  function Kept(s: bytes): bytes {
    if s == [] then [] else (if Ordinary(s[0]) then [s[0]] else []) + Kept(s[1..])
  }

  /** The labels of an encoding, up to the root or the first that does not fit. */
  function Parts(encoded: bytes): seq<bytes> {
    if encoded == [] || encoded[0] == 0 || 1 + encoded[0] > |encoded| then []
    else [encoded[1..1 + encoded[0]]] + Parts(encoded[1 + encoded[0]..])
  }

  /** Text a report can carry: lower case, bounded, and only the bytes a name is made of. */
  function Text(encoded: bytes): bytes {
    var name := Folded(Join(Parts(encoded)));
    if name == [] then [DOT]
    else Kept(if |name| > MAX_NAME_LENGTH then name[..MAX_NAME_LENGTH] else name)
  }

  lemma PartsFrom(encoded: bytes, i: nat)
    requires i < |encoded| && 0 < encoded[i] && i + 1 + encoded[i] <= |encoded|
    ensures var end := i + 1 + encoded[i];
            Parts(encoded[i..]) == [encoded[i + 1..end]] + Parts(encoded[end..])
  {
    var rest: bytes := encoded[i..];
    var size: nat := encoded[i];
    assert rest[1..1 + size] == encoded[i + 1..i + 1 + size];
    assert rest[1 + size..] == encoded[i + 1 + size..];
  }

  lemma PartsEnd(encoded: bytes, i: nat)
    requires i <= |encoded| && (i == |encoded| || encoded[i] == 0 || i + 1 + encoded[i] > |encoded|)
    ensures Parts(encoded[i..]) == []
  {}

  method NameText(encoded: bytes) returns (text: bytes)
    ensures text == Text(encoded)
  {
    var parts: seq<bytes> := [];
    var i := 0;
    assert encoded[0..] == encoded;
    while i < |encoded|
      invariant 0 <= i <= |encoded|
      invariant Parts(encoded) == parts + Parts(encoded[i..])
    {
      hide Parts;
      var size := encoded[i];
      if size == 0 || i + 1 + size > |encoded| {
        break;
      }
      PartsFrom(encoded, i);
      var piece := encoded[i + 1..i + 1 + size];
      assert parts + ([piece] + Parts(encoded[i + 1 + size..])) == (parts + [piece]) + Parts(encoded[i + 1 + size..]);
      parts := parts + [piece];
      i := i + 1 + size;
    }
    PartsEnd(encoded, i);
    assert parts + [] == parts;
    var name := Folded(Join(parts));
    if name == [] {
      return [DOT];
    }
    if |name| > MAX_NAME_LENGTH {
      name := name[..MAX_NAME_LENGTH];
    }
    text := Kept(name);
  }

  /** Whatever a resolver sends, the text is bounded and made of ordinary bytes alone. */
  lemma TextIsPlain(encoded: bytes)
    ensures |Text(encoded)| <= 253 && forall i :: 0 <= i < |Text(encoded)| ==> Ordinary(Text(encoded)[i])
  {
    var name := Folded(Join(Parts(encoded)));
    KeptPlain(if |name| > MAX_NAME_LENGTH then name[..MAX_NAME_LENGTH] else name);
  }

  lemma {:induction false} KeptPlain(s: bytes)
    ensures |Kept(s)| <= |s| && forall i :: 0 <= i < |Kept(s)| ==> Ordinary(Kept(s)[i])
    ensures (forall i :: 0 <= i < |s| ==> Ordinary(s[i])) ==> Kept(s) == s
  {
    if s != [] {
      KeptPlain(s[1..]);
      assert forall i :: 0 <= i < |s[1..]| ==> s[1..][i] == s[i + 1];
    }
  }

  lemma {:induction false} PartsWire(labels: seq<bytes>)
    requires Labels(labels)
    ensures Parts(Wire(labels)) == labels
  {
    var wire := Wire(labels);
    if labels != [] {
      var size, more := |labels[0]|, Wire(labels[1..]);
      assert wire == [size] + labels[0] + more;
      assert wire[1..1 + size] == labels[0] && wire[1 + size..] == more;
      PartsWire(labels[1..]);
    }
  }

  lemma {:induction false} FoldedJoin(labels: seq<bytes>)
    ensures Folded(Join(FoldedLabels(labels))) == Folded(Join(labels))
  {
    var folded := FoldedLabels(labels);
    if |labels| == 1 {
      FoldTwice(labels[0]);
    } else if |labels| > 1 {
      FoldedJoin(labels[1..]);
      assert folded[1..] == FoldedLabels(labels[1..]);
      FoldTwice(labels[0]);
      FoldedConcat(labels[0] + [DOT], Join(labels[1..]));
      FoldedConcat(labels[0], [DOT]);
      FoldedConcat(folded[0] + [DOT], Join(folded[1..]));
      FoldedConcat(folded[0], [DOT]);
    }
  }

  /** An ordinary name that is asked about, read back and put into text is the name in
      lower case without its last dot; the root is a dot. */
  lemma TextRoundTrip(text: bytes, wire: bytes)
    requires Encoded(text).Some? && Folded(wire) == Folded(Encoded(text).value)
    requires |Trimmed(text)| <= 253 && forall i :: 0 <= i < |Trimmed(text)| ==>
        Ordinary(Fold(Trimmed(text)[i]))
    ensures Text(Folded(wire)) == if Trimmed(text) == [] then [DOT] else Folded(Trimmed(text))
  {
    var name := Trimmed(text);
    if name == [] {
      assert Folded(wire) == [0];
    } else {
      var labels := Split(name);
      FoldedWire(labels);
      PartsWire(FoldedLabels(labels));
      FoldedJoin(labels);
      SplitJoin(name);
      KeptPlain(Folded(name));
    }
  }
}
