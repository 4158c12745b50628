/** Where an address in a page leads (internal/markup/markup.go). */
module Addresses {
  import opened Ascii
  import opened Bytes
  import opened Options

  const HTTP: bytes := Text("http")
  const HTTPS: bytes := Text("https")

  const MAX_HOST_LENGTH := 253

  datatype Origin = Origin(plaintext: bool, host: bytes, otherPort: bool)

  // ---- Cutting text ----

  function TrimLeft(s: bytes, drop: byte -> bool): bytes {
    if s != [] && drop(s[0]) then TrimLeft(s[1..], drop) else s
  }

  function TrimRight(s: bytes, drop: byte -> bool): bytes {
    if s != [] && drop(s[|s| - 1]) then TrimRight(s[..|s| - 1], drop) else s
  }

  function Trim(s: bytes, drop: byte -> bool): bytes {
    TrimRight(TrimLeft(s, drop), drop)
  }

  function Without(s: bytes, drop: byte -> bool): (r: bytes)
    ensures |r| <= |s| && forall i :: 0 <= i < |r| ==> !drop(r[i])
  {
    if s == [] then [] else if drop(s[0]) then Without(s[1..], drop) else [s[0]] + Without(s[1..], drop)
  }

  /** What comes before the first byte that stops. */
  function UpTo(s: bytes, stop: byte -> bool): bytes {
    if s == [] || stop(s[0]) then [] else [s[0]] + UpTo(s[1..], stop)
  }

  /** Where a byte last occurs; -1 when it does not. */
  function LastIndex(s: bytes, c: byte): (j: int)
    ensures -1 <= j < |s| && (j >= 0 ==> s[j] == c)
    ensures forall k :: j < k < |s| ==> s[k] != c
  {
    if s == [] then -1 else if s[|s| - 1] == c then |s| - 1 else LastIndex(s[..|s| - 1], c)
  }

  predicate Blank(c: byte) {
    c <= SPACE
  }

  predicate Break(c: byte) {
    c == TAB || c == NEWLINE || c == RETURN
  }

  predicate IsSlash(c: byte) {
    c == SLASH || c == BACKSLASH
  }

  predicate EndsAuthority(c: byte) {
    IsSlash(c) || c == QUESTION || c == HASH
  }

  predicate Bracket(c: byte) {
    c == OPEN_BRACKET || c == CLOSE_BRACKET
  }

  predicate Control(c: byte) {
    c < 32 || c == 127
  }

  predicate Zero(c: byte) {
    c == 48
  }

  /** An address as a browser takes it: no space around it and no line break in it. */
  function Cleaned(value: bytes): bytes {
    Without(Trim(value, Blank), Break)
  }

  // ---- Schemes ----

  predicate Letter(c: byte) {
    'a' as int <= c <= 'z' as int || 'A' as int <= c <= 'Z' as int
  }

  predicate SchemeByte(c: byte, i: nat) {
    Letter(c) || (i > 0 && ('0' as int <= c <= '9' as int || c == '+' as int || c == '-' as int || c == '.' as int))
  }

  /** How long the scheme at the start of an address is, its colon not counted. */
  function SchemeFrom(value: bytes, i: nat): Option<nat>
    requires i <= |value|
    decreases |value| - i
  {
    if i == |value| then None
    else if SchemeByte(value[i], i) then SchemeFrom(value, i + 1)
    else if i > 0 && value[i] == COLON then Some(i)
    else None
  }

  datatype Scheme = NoScheme | Scheme(name: bytes, rest: bytes)

  function SchemeOf(value: bytes): Scheme {
    var n := SchemeFrom(value, 0);
    if n.Some? && n.value < |value| then Scheme(Folded(value[..n.value]), value[n.value + 1..]) else NoScheme
  }

  lemma {:induction false} SchemeInside(value: bytes, i: nat)
    requires i <= |value|
    ensures var n := SchemeFrom(value, i);
            n.Some? ==> i <= n.value < |value| && value[n.value] == COLON && 0 < n.value
    decreases |value| - i
  {
    if i < |value| && SchemeByte(value[i], i) {
      SchemeInside(value, i + 1);
    }
  }

  method SplitScheme(value: bytes) returns (r: Scheme)
    ensures r == SchemeOf(value)
  {
    SchemeInside(value, 0);
    for i := 0 to |value|
      invariant SchemeFrom(value, i) == SchemeFrom(value, 0)
    {
      var c := value[i];
      if Letter(c) {
      } else if i > 0 && ('0' as int <= c <= '9' as int || c == '+' as int || c == '-' as int || c == '.' as int) {
      } else if i > 0 && c == COLON {
        return Scheme(Folded(value[..i]), value[i + 1..]);
      } else {
        return NoScheme;
      }
    }
    return NoScheme;
  }

  // ---- Authorities ----

  function DefaultPort(plaintext: bool): bytes {
    if plaintext then Text("80") else Text("443")
  }

  /** The name and whether its port is another than the scheme's own. */
  function Port(rest: bytes, plaintext: bool): (bytes, bool) {
    var i := LastIndex(rest, COLON);
    if i >= 0 && CLOSE_BRACKET !in rest[i..] then
      var port := TrimLeft(rest[i + 1..], Zero);
      (rest[..i], port != [] && port != DefaultPort(plaintext))
    else (rest, false)
  }

  function Host(name: bytes, fold: bytes -> bytes): (host: bytes)
    ensures |host| <= MAX_HOST_LENGTH && forall i :: 0 <= i < |host| ==> !Control(host[i])
  {
    var folded := fold(Trim(name, Bracket));
    Without(if |folded| > MAX_HOST_LENGTH then folded[..MAX_HOST_LENGTH] else folded, Control)
  }

  function Authority(rest: bytes, plaintext: bool, fold: bytes -> bytes): (o: Origin)
    ensures |o.host| <= MAX_HOST_LENGTH && forall i :: 0 <= i < |o.host| ==> !Control(o.host[i])
  {
    var upTo := UpTo(rest, EndsAuthority);
    var (name, other) := Port(upTo[LastIndex(upTo, AT) + 1..], plaintext);
    Origin(plaintext, Host(name, fold), other)
  }

  predicate SlashAt(s: bytes, i: nat) {
    i < |s| && IsSlash(s[i])
  }

  /** Where an address leads from a base; none when no fetch goes there. */
  function Resolve(base: Origin, value: bytes, fold: bytes -> bytes): Option<Origin> {
    var v := Cleaned(value);
    if v == [] then None
    else
      match SchemeOf(v)
      case Scheme(name, rest) =>
        if name != HTTP && name != HTTPS then None
        else if (name == HTTP) == base.plaintext && !SlashAt(rest, 0) then Some(base)
        else Some(Authority(TrimLeft(rest, IsSlash), name == HTTP, fold))
      case NoScheme =>
        if SlashAt(v, 0) && SlashAt(v, 1) then Some(Authority(TrimLeft(v, IsSlash), base.plaintext, fold))
        else Some(base)
  }

  // ---- Nothing but the host is kept ----

  lemma {:induction false} UpToStops(p: bytes, t: bytes, stop: byte -> bool)
    requires (forall i :: 0 <= i < |p| ==> !stop(p[i])) && (t == [] || stop(t[0]))
    ensures UpTo(p + t, stop) == p
  {
    if p == [] {
      assert p + t == t;
    } else {
      assert (p + t)[1..] == p[1..] + t;
      UpToStops(p[1..], t, stop);
    }
  }

  predicate InAuthority(s: bytes) {
    forall i :: 0 <= i < |s| ==> !EndsAuthority(s[i])
  }

  /** Whatever the credentials, path, query or fragment, an address leads where its host
      and port alone do. */
  lemma OnlyTheHost(user: bytes, host: bytes, tail: bytes, plaintext: bool, fold: bytes -> bytes)
    requires InAuthority(user) && InAuthority(host) && AT !in host
    requires tail == [] || EndsAuthority(tail[0])
    ensures Authority(user + [AT] + host + tail, plaintext, fold) == Authority(host + tail, plaintext, fold)
            == Authority(host, plaintext, fold)
  {
    hide UpTo, Port, Host;
    var named := user + [AT] + host;
    UpToStops(named, tail, EndsAuthority);
    UpToStops(host, tail, EndsAuthority);
    UpToStops(host, [], EndsAuthority);
    assert host + [] == host;
    assert named[|user|] == AT && forall k :: |user| < k < |named| ==> named[k] == host[k - |user| - 1];
    assert LastIndex(named, AT) == |user|;
    assert named[|user| + 1..] == host;
    assert LastIndex(host, AT) == -1;
    assert host[0..] == host;
  }

  // ---- A backslash is a slash ----

  function Slashed(s: bytes): (r: bytes)
    ensures |r| == |s| && forall i :: 0 <= i < |s| ==> r[i] == if s[i] == BACKSLASH then SLASH else s[i]
  {
    seq(|s|, i requires 0 <= i < |s| => if s[i] == BACKSLASH then SLASH else s[i])
  }

  /** A test that takes a backslash for a slash. */
  ghost predicate Blind(p: byte -> bool) {
    p(SLASH) == p(BACKSLASH)
  }

  lemma {:induction false} SlashedTrimLeft(s: bytes, drop: byte -> bool)
    requires Blind(drop)
    ensures TrimLeft(Slashed(s), drop) == Slashed(TrimLeft(s, drop))
  {
    if s != [] {
      assert Slashed(s)[1..] == Slashed(s[1..]);
      SlashedTrimLeft(s[1..], drop);
    }
  }

  lemma {:induction false} SlashedTrimRight(s: bytes, drop: byte -> bool)
    requires Blind(drop)
    ensures TrimRight(Slashed(s), drop) == Slashed(TrimRight(s, drop))
  {
    if s != [] {
      assert Slashed(s)[..|s| - 1] == Slashed(s[..|s| - 1]);
      SlashedTrimRight(s[..|s| - 1], drop);
    }
  }

  lemma {:induction false} SlashedWithout(s: bytes, drop: byte -> bool)
    requires Blind(drop)
    ensures Without(Slashed(s), drop) == Slashed(Without(s, drop))
  {
    if s != [] {
      assert Slashed(s)[1..] == Slashed(s[1..]);
      SlashedWithout(s[1..], drop);
      var more := Without(s[1..], drop);
      assert Slashed([s[0]] + more) == [Slashed(s)[0]] + Slashed(more);
    }
  }

  lemma {:induction false} SlashedUpTo(s: bytes)
    ensures UpTo(Slashed(s), EndsAuthority) == UpTo(s, EndsAuthority)
  {
    if s != [] {
      assert Slashed(s)[1..] == Slashed(s[1..]);
      SlashedUpTo(s[1..]);
    }
  }

  lemma {:induction false} SlashedScheme(s: bytes, i: nat)
    requires i <= |s|
    ensures SchemeFrom(Slashed(s), i) == SchemeFrom(s, i)
    ensures forall k :: i <= k < |s| && SchemeFrom(s, i) == Some(k) ==> forall j :: i <= j < k ==> s[j] != BACKSLASH
    decreases |s| - i
  {
    if i < |s| && SchemeByte(s[i], i) {
      SlashedScheme(s, i + 1);
    }
  }

  lemma SlashedSchemeOf(s: bytes)
    ensures SchemeOf(Slashed(s)) ==
            match SchemeOf(s)
            case NoScheme => NoScheme
            case Scheme(name, rest) => Scheme(name, Slashed(rest))
  {
    SlashedScheme(s, 0);
    var n := SchemeFrom(s, 0);
    if n.Some? && n.value < |s| {
      assert Slashed(s)[..n.value] == s[..n.value];
      assert Slashed(s)[n.value + 1..] == Slashed(s[n.value + 1..]);
    }
  }

  /** An address leads to the same place with its backslashes turned. */
  lemma BackslashIsSlash(base: Origin, value: bytes, fold: bytes -> bytes)
    ensures Resolve(base, Slashed(value), fold) == Resolve(base, value, fold)
  {
    hide SchemeOf, TrimLeft, TrimRight, Without, UpTo, Port, Host, HTTP, HTTPS;
    SlashedTrimLeft(value, Blank);
    SlashedTrimRight(TrimLeft(value, Blank), Blank);
    SlashedWithout(Trim(value, Blank), Break);
    var v := Cleaned(value);
    SlashedSchemeOf(v);
    SlashedTrimLeft(v, IsSlash);
    SlashedUpTo(TrimLeft(v, IsSlash));
    if SchemeOf(v).Scheme? {
      var rest := SchemeOf(v).rest;
      SlashedTrimLeft(rest, IsSlash);
      SlashedUpTo(TrimLeft(rest, IsSlash));
    }
  }

  // ---- Line breaks do not count ----

  lemma {:induction false} TrimLeftBreak(a: bytes, c: byte, b: bytes)
    requires Break(c)
    ensures exists x: bytes, y: bytes ::
              TrimLeft(a + b, Blank) == x + y
                  && (TrimLeft(a + [c] + b, Blank) == x + [c] + y || TrimLeft(a + [c] + b, Blank) == x + y)
  {
    var s, t := a + [c] + b, a + b;
    if a == [] {
      assert s[1..] == b && t == b;
      var x: bytes, y := [], TrimLeft(b, Blank);
      assert x + y == y;
      assert TrimLeft(s, Blank) == x + y;
    } else if Blank(a[0]) {
      assert s[1..] == a[1..] + [c] + b && t[1..] == a[1..] + b;
      TrimLeftBreak(a[1..], c, b);
    } else {
      assert TrimLeft(s, Blank) == a + [c] + b && TrimLeft(t, Blank) == a + b;
    }
  }

  lemma {:induction false} TrimRightBreak(a: bytes, c: byte, b: bytes)
    requires Break(c)
    ensures exists x: bytes, y: bytes ::
              TrimRight(a + b, Blank) == x + y
                  && (TrimRight(a + [c] + b, Blank) == x + [c] + y || TrimRight(a + [c] + b, Blank) == x + y)
  {
    var s, t := a + [c] + b, a + b;
    if b == [] {
      assert s[..|s| - 1] == a && t == a;
      var x, y: bytes := TrimRight(a, Blank), [];
      assert x + y == x;
      assert TrimRight(s, Blank) == x + y;
    } else if Blank(b[|b| - 1]) {
      var d := b[..|b| - 1];
      assert s[..|s| - 1] == a + [c] + d && t[..|t| - 1] == a + d;
      TrimRightBreak(a, c, d);
    } else {
      assert TrimRight(s, Blank) == a + [c] + b && TrimRight(t, Blank) == a + b;
    }
  }

  lemma {:induction false} WithoutConcat(a: bytes, b: bytes, drop: byte -> bool)
    ensures Without(a + b, drop) == Without(a, drop) + Without(b, drop)
  {
    if a == [] {
      assert a + b == b;
    } else {
      assert (a + b)[1..] == a[1..] + b;
      WithoutConcat(a[1..], b, drop);
    }
  }

  lemma WithoutBreak(a: bytes, c: byte, b: bytes)
    requires Break(c)
    ensures Without(a + [c] + b, Break) == Without(a + b, Break)
  {
    WithoutConcat(a, [c] + b, Break);
    WithoutConcat(a, b, Break);
    assert a + ([c] + b) == a + [c] + b;
    assert ([c] + b)[1..] == b;
  }

  /** A tab or a line break anywhere in an address changes nothing about where it leads. */
  lemma BreaksIgnored(base: Origin, a: bytes, c: byte, b: bytes, fold: bytes -> bytes)
    requires Break(c)
    ensures Resolve(base, a + [c] + b, fold) == Resolve(base, a + b, fold)
  {
    hide SchemeOf, TrimLeft, TrimRight, Without, Authority;
    TrimLeftBreak(a, c, b);
    var x: bytes, y: bytes :|
      TrimLeft(a + b, Blank) == x + y
          && (TrimLeft(a + [c] + b, Blank) == x + [c] + y || TrimLeft(a + [c] + b, Blank) == x + y);
    if TrimLeft(a + [c] + b, Blank) == x + [c] + y {
      TrimRightBreak(x, c, y);
      var z: bytes, w: bytes :|
        TrimRight(x + y, Blank) == z + w
            && (TrimRight(x + [c] + y, Blank) == z + [c] + w || TrimRight(x + [c] + y, Blank) == z + w);
      WithoutBreak(z, c, w);
    }
    assert Cleaned(a + [c] + b) == Cleaned(a + b);
  }
}
