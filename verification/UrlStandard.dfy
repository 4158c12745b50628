/** Where the URL Standard has an address lead, and where it and the reader of markup part
    (internal/markup/markup.go). */
module UrlStandard {
  import opened Ascii
  import opened Bytes
  import opened Options
  import opened Addresses

  /** To nothing that is fetched over HTTP, to the base, or to an authority. */
  datatype Leads = Nowhere | ToBase | ToAuthority(text: bytes, plaintext: bool)

  /** What the reader makes of that: the origin an authority is reduced to. */
  function Origins(base: Origin, leads: Leads, fold: bytes -> bytes): Option<Origin> {
    match leads
    case Nowhere => None
    case ToBase => Some(base)
    case ToAuthority(text, plaintext) => Some(Authority(text, plaintext, fold))
  }

  // ---- The basic URL parser, section 4.4 of the URL Standard ----

  datatype State =
    | SchemeStart
    | InScheme
    | NoSchemeYet
    | SpecialRelativeOrAuthority
    | SpecialAuthoritySlashes
    | SpecialAuthorityIgnoreSlashes
    | RelativeState
    | RelativeSlash

  function Rank(state: State): nat {
    match state
    case SchemeStart => 6
    case InScheme => 5
    case NoSchemeYet => 4
    case SpecialRelativeOrAuthority => 4
    case SpecialAuthoritySlashes => 4
    case RelativeState => 3
    case RelativeSlash => 2
    case SpecialAuthorityIgnoreSlashes => 1
  }

  predicate At(v: bytes, p: nat, c: byte) {
    p < |v| && v[p] == c
  }

  /** The states up to the authority, at the code point `p`: the pointer moves on, or stays
      for the next state, and goes back to the start when there was no scheme after all.
      The base is of the http or https scheme, and so are the addresses that lead anywhere. */
  function Parsed(base: Origin, v: bytes, state: State, p: nat, buffer: bytes, plaintext: bool): Leads
    requires p <= |v|
    decreases Rank(state), |v| - p
  {
    match state
    case SchemeStart =>
      if p < |v| && Letter(v[p]) then Parsed(base, v, InScheme, p + 1, buffer + [Fold(v[p])], plaintext)
      else Parsed(base, v, NoSchemeYet, p, buffer, plaintext)
    case InScheme =>
      if p < |v| && SchemeByte(v[p], 1) then Parsed(base, v, InScheme, p + 1, buffer + [Fold(v[p])], plaintext)
      else if !At(v, p, COLON) then Parsed(base, v, NoSchemeYet, 0, [], plaintext)
      else if buffer != HTTP && buffer != HTTPS then Nowhere
      else if (buffer == HTTP) == base.plaintext then
        Parsed(base, v, SpecialRelativeOrAuthority, p + 1, [], base.plaintext)
      else Parsed(base, v, SpecialAuthoritySlashes, p + 1, [], buffer == HTTP)
    case NoSchemeYet => Parsed(base, v, RelativeState, p, buffer, base.plaintext)
    case SpecialRelativeOrAuthority =>
      if At(v, p, SLASH) && At(v, p + 1, SLASH) then
        Parsed(base, v, SpecialAuthorityIgnoreSlashes, p + 2, buffer, plaintext)
      else Parsed(base, v, RelativeState, p, buffer, plaintext)
    case SpecialAuthoritySlashes =>
      if At(v, p, SLASH) && At(v, p + 1, SLASH) then
        Parsed(base, v, SpecialAuthorityIgnoreSlashes, p + 2, buffer, plaintext)
      else Parsed(base, v, SpecialAuthorityIgnoreSlashes, p, buffer, plaintext)
    case SpecialAuthorityIgnoreSlashes =>
      if SlashAt(v, p) then Parsed(base, v, state, p + 1, buffer, plaintext) else ToAuthority(v[p..], plaintext)
    case RelativeState =>
      if SlashAt(v, p) then Parsed(base, v, RelativeSlash, p + 1, buffer, plaintext) else ToBase
    case RelativeSlash =>
      if SlashAt(v, p) then Parsed(base, v, SpecialAuthorityIgnoreSlashes, p + 1, buffer, plaintext) else ToBase
  }

  /** An address is trimmed of controls and spaces and loses its tabs and line breaks first. */
  function Standard(base: Origin, value: bytes): Leads {
    Parsed(base, Cleaned(value), SchemeStart, 0, [], base.plaintext)
  }

  // ---- The reader of markup ----

  function Led(base: Origin, value: bytes): Leads {
    var v := Cleaned(value);
    if v == [] then Nowhere
    else
      match SchemeOf(v)
      case Scheme(name, rest) =>
        if name != HTTP && name != HTTPS then Nowhere
        else if (name == HTTP) == base.plaintext && !SlashAt(rest, 0) then ToBase
        else ToAuthority(TrimLeft(rest, IsSlash), name == HTTP)
      case NoScheme =>
        if SlashAt(v, 0) && SlashAt(v, 1) then ToAuthority(TrimLeft(v, IsSlash), base.plaintext) else ToBase
  }

  lemma ResolveLed(base: Origin, value: bytes, fold: bytes -> bytes)
    ensures Resolve(base, value, fold) == Origins(base, Led(base, value), fold)
  {
    hide Cleaned, SchemeOf, Authority, TrimLeft, HTTP, HTTPS;
  }

  // ---- Where they agree ----

  lemma {:induction false} SlashesIgnored(base: Origin, v: bytes, p: nat, buffer: bytes, plaintext: bool)
    requires p <= |v|
    ensures Parsed(base, v, SpecialAuthorityIgnoreSlashes, p, buffer, plaintext) ==
            ToAuthority(TrimLeft(v[p..], IsSlash), plaintext)
    decreases |v| - p
  {
    if SlashAt(v, p) {
      SlashesIgnored(base, v, p + 1, buffer, plaintext);
      assert v[p..][1..] == v[p + 1..];
    }
  }

  lemma TrimmedTwice(v: bytes, p: nat)
    requires SlashAt(v, p) && SlashAt(v, p + 1)
    ensures TrimLeft(v[p + 2..], IsSlash) == TrimLeft(v[p..], IsSlash)
    ensures TrimLeft(v[p + 1..], IsSlash) == TrimLeft(v[p..], IsSlash)
  {
    assert v[p..][1..] == v[p + 1..] && v[p + 1..][1..] == v[p + 2..];
  }

  /** Relative to the base, but for two slashes of either kind. */
  lemma RelativeTo(base: Origin, v: bytes, p: nat, buffer: bytes, plaintext: bool)
    requires p <= |v|
    ensures Parsed(base, v, RelativeState, p, buffer, plaintext) ==
            if SlashAt(v, p) && SlashAt(v, p + 1) then ToAuthority(TrimLeft(v[p..], IsSlash), plaintext) else ToBase
  {
    if SlashAt(v, p) && SlashAt(v, p + 1) {
      SlashesIgnored(base, v, p + 2, buffer, plaintext);
      TrimmedTwice(v, p);
    }
  }

  /** The base's own scheme: relative as well, two slashes or none. */
  lemma SameScheme(base: Origin, v: bytes, p: nat)
    requires p <= |v|
    ensures Parsed(base, v, SpecialRelativeOrAuthority, p, [], base.plaintext) ==
            if SlashAt(v, p)
                && SlashAt(v, p + 1) then ToAuthority(TrimLeft(v[p..], IsSlash), base.plaintext) else ToBase
  {
    RelativeTo(base, v, p, [], base.plaintext);
    if At(v, p, SLASH) && At(v, p + 1, SLASH) {
      SlashesIgnored(base, v, p + 2, [], base.plaintext);
      TrimmedTwice(v, p);
    }
  }

  /** Another scheme: an authority, however many slashes come before it. */
  lemma OtherScheme(base: Origin, v: bytes, p: nat, plaintext: bool)
    requires p <= |v|
    ensures Parsed(base, v, SpecialAuthoritySlashes, p, [], plaintext) ==
        ToAuthority(TrimLeft(v[p..], IsSlash), plaintext)
  {
    SlashesIgnored(base, v, p, [], plaintext);
    if At(v, p, SLASH) && At(v, p + 1, SLASH) {
      SlashesIgnored(base, v, p + 2, [], plaintext);
      TrimmedTwice(v, p);
    }
  }

  /** What the parser makes of an address once its scheme is known. */
  function AfterScheme(base: Origin, v: bytes, n: Option<nat>): Leads
    requires n.Some? ==> n.value < |v|
  {
    if n.None? then Parsed(base, v, NoSchemeYet, 0, [], base.plaintext)
    else
      var name := Folded(v[..n.value]);
      if name != HTTP && name != HTTPS then Nowhere
      else if (name == HTTP) == base.plaintext then
        Parsed(base, v, SpecialRelativeOrAuthority, n.value + 1, [], base.plaintext)
      else Parsed(base, v, SpecialAuthoritySlashes, n.value + 1, [], name == HTTP)
  }

  lemma {:induction false} SchemeScanned(base: Origin, v: bytes, p: nat)
    requires 0 < p <= |v|
    ensures SchemeFrom(v, p).Some? ==> SchemeFrom(v, p).value < |v|
    ensures Parsed(base, v, InScheme, p, Folded(v[..p]), base.plaintext) == AfterScheme(base, v, SchemeFrom(v, p))
    decreases |v| - p
  {
    hide HTTP, HTTPS;
    if p < |v| && SchemeByte(v[p], 1) {
      SchemeScanned(base, v, p + 1);
      assert Folded(v[..p + 1]) == Folded(v[..p]) + [Fold(v[p])];
    }
  }

  lemma StandardScheme(base: Origin, v: bytes)
    ensures SchemeFrom(v, 0).Some? ==> SchemeFrom(v, 0).value < |v|
    ensures Parsed(base, v, SchemeStart, 0, [], base.plaintext) == AfterScheme(base, v, SchemeFrom(v, 0))
  {
    hide HTTP, HTTPS;
    if v != [] && Letter(v[0]) {
      SchemeScanned(base, v, 1);
      assert Folded(v[..1]) == [] + [Fold(v[0])];
    }
  }

  /** The base's own scheme and then one slash of either kind, not two. */
  predicate OneSlash(base: Origin, v: bytes) {
    match SchemeOf(v)
    case NoScheme => false
    case Scheme(name, rest) =>
      name == (if base.plaintext then HTTP else HTTPS) && SlashAt(rest, 0) && !SlashAt(rest, 1)
  }

  /** The reader takes an address where the URL Standard does, whatever the base, except where
      the base's own scheme stands before a single slash, which is relative in the Standard
      and a host to the reader; and an empty address, which leads to the base in the
      Standard and is not fetched. */
  lemma StandardExact(base: Origin, value: bytes)
    ensures var v := Cleaned(value);
            && (Led(base, value) == Standard(base, value) <==> v != [] && !OneSlash(base, v))
            && (OneSlash(base, v) ==> Standard(base, value) == ToBase && Led(base, value).ToAuthority?)
            && (v == [] ==> Standard(base, value) == ToBase && Led(base, value) == Nowhere)
  {
    hide Cleaned, TrimLeft, Parsed;
    SchemesApart();
    hide HTTP, HTTPS;
    var v := Cleaned(value);
    StandardScheme(base, v);
    var n := SchemeFrom(v, 0);
    if n.Some? {
      SameScheme(base, v, n.value + 1);
      OtherScheme(base, v, n.value + 1, Folded(v[..n.value]) == HTTP);
    } else {
      NoSchemeRelative(base, v);
      assert v[0..] == v;
    }
  }

  /** One such address: a file beside the page to the Standard, a host to the reader. */
  const ONE_SLASH: bytes := HTTPS + [COLON, SLASH, 'a' as int]

  lemma OneSlashParts(base: Origin)
    requires !base.plaintext
    ensures Standard(base, ONE_SLASH) == ToBase && Led(base, ONE_SLASH) == ToAuthority(['a' as int], false)
  {
    var v := ONE_SLASH;
    assert |HTTPS| == 5 && v[..5] == HTTPS && v[5] == COLON && v[6..] == [SLASH, 'a' as int];
    NothingToClean(v);
    SchemeIs(v, 5);
    FoldedHttps();
    assert TrimLeft([SLASH, 'a' as int], IsSlash) == ['a' as int] by {
      assert [SLASH, 'a' as int][1..] == ['a' as int];
    }
    StandardExact(base, v);
  }

  lemma FoldedHttps()
    ensures Folded(HTTPS) == HTTPS
  {
    forall i | 0 <= i < |HTTPS|
      ensures Fold(HTTPS[i]) == HTTPS[i]
    {
      assert HTTPS[i] == "https"[i] as int;
      assert 'a' <= "https"[i] <= 'z';
    }
  }

  lemma SchemeIs(v: bytes, n: nat)
    requires 0 < n < |v| && v[n] == COLON && forall i :: 0 <= i < n ==> Letter(v[i])
    ensures SchemeOf(v) == Scheme(Folded(v[..n]), v[n + 1..])
  {
    SchemeReaches(v, n, 0);
  }

  lemma {:induction false} SchemeReaches(v: bytes, n: nat, i: nat)
    requires 0 < n < |v| && v[n] == COLON && i <= n && forall i :: 0 <= i < n ==> Letter(v[i])
    ensures SchemeFrom(v, i) == Some(n)
    decreases n - i
  {
    if i < n {
      SchemeReaches(v, n, i + 1);
    }
  }

  lemma NothingToClean(v: bytes)
    requires v != [] && forall i :: 0 <= i < |v| ==> v[i] > SPACE
    ensures Cleaned(v) == v
  {
    NothingDropped(v);
  }

  lemma {:induction false} NothingDropped(v: bytes)
    requires forall i :: 0 <= i < |v| ==> v[i] > SPACE
    ensures Without(v, Break) == v
  {
    if v != [] {
      NothingDropped(v[1..]);
    }
  }

  lemma NoSchemeRelative(base: Origin, v: bytes)
    ensures Parsed(base, v, NoSchemeYet, 0, [], base.plaintext) ==
            if SlashAt(v, 0) && SlashAt(v, 1) then ToAuthority(TrimLeft(v[0..], IsSlash), base.plaintext) else ToBase
  {
    RelativeTo(base, v, 0, [], base.plaintext);
  }

  lemma SchemesApart()
    ensures HTTP != HTTPS
  {
    assert |HTTP| != |HTTPS|;
  }
}
