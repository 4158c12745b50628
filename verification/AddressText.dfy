/** Reading back an address that was written out (internal/markup/markup.go).

    The bytes that part a scheme, credentials, a host and a port are written here as the numbers
    they are.
 */
module AddressText {
  import opened Ascii
  import opened Bytes
  import opened Options
  import opened Addresses
  import opened References
  import UrlStandard

  /** An address as somebody wrote it. `zeros` are put before the port's digits. */
  datatype Address = Address(scheme: Option<bytes>, slashes: bytes, user: Option<bytes>, name: bytes, bracketed: bool,
                             port: Option<bytes>, zeros: nat, tail: bytes)

  predicate Printable(s: bytes) {
    forall i :: 0 <= i < |s| ==> s[i] > 32
  }

  /** A slash of either kind. */
  predicate Slash(c: byte) {
    c == 47 || c == 92
  }

  /** Neither slash, nor the mark of a query or of a fragment. */
  predicate NoPath(s: bytes) {
    forall i :: 0 <= i < |s| ==> !Slash(s[i]) && s[i] != 63 && s[i] != 35
  }

  /** The word http or https, in any case. */
  predicate Web(scheme: bytes) {
    Folded(scheme) == [104, 116, 116, 112] || Folded(scheme) == [104, 116, 116, 112, 115]
  }

  predicate Digits(s: bytes) {
    forall i :: 0 <= i < |s| ==> 48 <= s[i] <= 57
  }

  predicate Writable(a: Address) {
    && (a.scheme.Some? ==> Web(a.scheme.value))
    && (forall i :: 0 <= i < |a.slashes| ==> Slash(a.slashes[i]))
    && |a.slashes| >= (if a.scheme.Some? then 1 else 2)
    && (a.user.Some? ==> Printable(a.user.value) && NoPath(a.user.value))
    && a.name != [] && Printable(a.name) && NoPath(a.name)
    && 64 !in a.name && 91 !in a.name && 93 !in a.name && (!a.bracketed ==> 58 !in a.name)
    && (a.port.Some? ==> Digits(a.port.value) && (a.port.value != [] ==> a.port.value[0] != 48))
    && Printable(a.tail) && (a.tail == [] || Slash(a.tail[0]) || a.tail[0] == 63 || a.tail[0] == 35)
  }

  function NameText(a: Address): bytes {
    if a.bracketed then [91] + a.name + [93] else a.name
  }

  function Zeros(n: nat): (s: bytes)
    ensures |s| == n && forall i :: 0 <= i < n ==> s[i] == 48
  {
    if n == 0 then [] else [48] + Zeros(n - 1)
  }

  function HostText(a: Address): bytes {
    NameText(a) + if a.port.Some? then [58] + (Zeros(a.zeros) + a.port.value) else []
  }

  function AuthorityText(a: Address): bytes {
    (if a.user.Some? then a.user.value + [64] else []) + HostText(a) + a.tail
  }

  function SchemeText(a: Address): bytes {
    if a.scheme.Some? then a.scheme.value + [58] else []
  }

  function AddressText(a: Address): bytes {
    SchemeText(a) + (a.slashes + AuthorityText(a))
  }

  predicate Plaintext(base: Origin, a: Address) {
    if a.scheme.Some? then |a.scheme.value| == 4 else base.plaintext
  }

  /** A port is given, and it is neither 80 on http nor 443 on https. */
  predicate OtherPort(base: Origin, a: Address) {
    && a.port.Some? && a.port.value != []
    && a.port.value != if Plaintext(base, a) then [56, 48] else [52, 52, 51]
  }

  /** A host of ordinary length, with no control byte. */
  predicate Whole(host: bytes) {
    |host| <= 253 && forall i :: 0 <= i < |host| ==> host[i] >= 32 && host[i] != 127
  }

  // ---- The host and the port ----

  lemma {:induction false} TrimmedLeft(p: bytes, x: bytes, drop: byte -> bool)
    requires (forall i :: 0 <= i < |p| ==> drop(p[i])) && (x == [] || !drop(x[0]))
    ensures TrimLeft(p + x, drop) == x
  {
    if p == [] {
      assert p + x == x;
    } else {
      assert (p + x)[1..] == p[1..] + x;
      TrimmedLeft(p[1..], x, drop);
    }
  }

  lemma {:induction false} NothingWithout(s: bytes, drop: byte -> bool)
    requires forall i :: 0 <= i < |s| ==> !drop(s[i])
    ensures Without(s, drop) == s
  {
    if s != [] {
      NothingWithout(s[1..], drop);
    }
  }

  lemma NameTrimmed(a: Address)
    requires Writable(a)
    ensures Trim(NameText(a), Bracket) == a.name
  {
    hide TrimLeft, TrimRight;
    var name := a.name;
    assert name[0] in name && name[|name| - 1] in name;
    if a.bracketed {
      assert [91] + name + [93] == [91] + (name + [93]) && (name + [93])[0] == name[0];
      TrimmedLeft([91], name + [93], Bracket);
      TrimmedRight(name, [93], Bracket);
    } else {
      assert [] + name == name && name + [] == name;
      TrimmedLeft([], name, Bracket);
      TrimmedRight(name, [], Bracket);
    }
  }

  lemma HostIs(a: Address, fold: bytes -> bytes)
    requires Writable(a) && Whole(fold(a.name))
    ensures Host(NameText(a), fold) == fold(a.name)
  {
    NameTrimmed(a);
    NothingWithout(fold(a.name), Control);
  }

  lemma LastIs(s: bytes, c: byte, n: nat)
    requires n < |s| && s[n] == c && c !in s[n + 1..]
    ensures LastIndex(s, c) == n
  {
    forall k | n < k < |s|
      ensures s[k] != c
    {
      assert s[n + 1..][k - n - 1] == s[k];
    }
  }

  lemma DefaultPorts(plaintext: bool)
    ensures DefaultPort(plaintext) == if plaintext then [56, 48] else [52, 52, 51]
  {
    assert Text("80") == [56, 48] && Text("443") == [52, 52, 51];
  }

  lemma PortIs(base: Origin, a: Address)
    requires Writable(a)
    ensures Port(HostText(a), Plaintext(base, a)) == (NameText(a), OtherPort(base, a))
  {
    hide NameText, LastIndex;
    DefaultPorts(Plaintext(base, a));
    if a.port.Some? {
      var given := Zeros(a.zeros) + a.port.value;
      HostCut(NameText(a), given);
      assert 58 !in given && 93 !in given;
      assert HostText(a) == NameText(a) + ([58] + given);
      LastIs(HostText(a), 58, |NameText(a)|);
      TrimmedLeft(Zeros(a.zeros), a.port.value, Zero);
    } else {
      NoPort(a);
    }
  }

  lemma HostCut(name: bytes, given: bytes)
    ensures var s, n := name + ([58] + given), |name|;
            s[n] == 58 && s[n..] == [58] + given && s[n + 1..] == given && s[..n] == name
  {}

  lemma NoPort(a: Address)
    requires Writable(a) && a.port.None?
    ensures HostText(a) == NameText(a)
    ensures LastIndex(NameText(a), 58) == -1 || 93 in NameText(a)[LastIndex(NameText(a), 58)..]
  {
    var s, i := NameText(a), LastIndex(NameText(a), 58);
    if i >= 0 {
      assert a.bracketed;
      assert s[|s| - 1] == 93 && s[i] == 58;
      assert s[i..][|s| - 1 - i] == 93;
    }
  }

  lemma HostParts(a: Address)
    requires Writable(a)
    ensures InAuthority(HostText(a)) && 64 !in HostText(a) && HostText(a) != []
    ensures Printable(HostText(a)) && !Slash(HostText(a)[0])
  {
    var name := NameText(a);
    assert name != [] && InAuthority(name) && 64 !in name && Printable(name) && !Slash(name[0]);
    assert HostText(a)[0] == name[0];
  }

  lemma AuthorityIs(base: Origin, a: Address, fold: bytes -> bytes)
    requires Writable(a) && Whole(fold(a.name))
    ensures Authority(AuthorityText(a), Plaintext(base, a), fold) ==
            Origin(Plaintext(base, a), fold(a.name), OtherPort(base, a))
  {
    hide Host, Port, HostText, NameText;
    var host, plain := HostText(a), Plaintext(base, a);
    HostParts(a);
    OnlyTheHost(if a.user.Some? then a.user.value else [], host, a.tail, plain, fold);
    assert [] + host + a.tail == host + a.tail;
    HostAlone(host, plain, fold);
    PortIs(base, a);
    HostIs(a, fold);
  }

  lemma HostAlone(host: bytes, plaintext: bool, fold: bytes -> bytes)
    requires InAuthority(host) && 64 !in host
    ensures var p := Port(host, plaintext);
            Authority(host, plaintext, fold) == Origin(plaintext, Host(p.0, fold), p.1)
  {
    hide Host, Port;
    UpToStops(host, [], EndsAuthority);
    assert host + [] == host;
    assert LastIndex(host, 64) == -1;
    assert host[0..] == host;
  }

  // ---- The whole address ----

  lemma Starts(a: Address)
    requires Writable(a)
    ensures AuthorityText(a) != [] && !IsSlash(AuthorityText(a)[0]) && Printable(AuthorityText(a))
  {
    hide HostText;
    HostParts(a);
    var host := HostText(a);
    if a.user.Some? {
      var user := a.user.value;
      var s := user + [64] + host + a.tail;
      assert s[0] == if user == [] then 64 else user[0];
    } else {
      assert [] + host + a.tail == host + a.tail;
    }
  }

  lemma Printed(a: Address)
    requires Writable(a)
    ensures Printable(AddressText(a)) && AddressText(a) != []
  {
    hide AuthorityText;
    Starts(a);
    if a.scheme.Some? {
      WebLetters(a.scheme.value);
    }
  }

  lemma WebLetters(scheme: bytes)
    requires Web(scheme)
    ensures forall i :: 0 <= i < |scheme| ==> Letter(scheme[i])
    ensures |scheme| == 4 || |scheme| == 5
    ensures |scheme| == 4 <==> Folded(scheme) == HTTP
    ensures |scheme| == 5 <==> Folded(scheme) == HTTPS
  {
    assert |HTTP| == 4 && |HTTPS| == 5;
    assert HTTP == [104, 116, 116, 112] && HTTPS == [104, 116, 116, 112, 115];
    forall i | 0 <= i < |scheme|
      ensures Letter(scheme[i])
    {
      assert Folded(scheme)[i] == Fold(scheme[i]);
      assert 97 <= Folded(scheme)[i] <= 122;
    }
  }

  /** An address leads to the host it names, folded, over the scheme it names or the base's, and on
      another port exactly when it names one that is not the scheme's own. */
  lemma AddressReadBack(base: Origin, a: Address, fold: bytes -> bytes)
    requires Writable(a) && Whole(fold(a.name))
    ensures Resolve(base, AddressText(a), fold) ==
            Some(Origin(Plaintext(base, a), fold(a.name), OtherPort(base, a)))
  {
    hide Authority, AuthorityText, Plaintext, OtherPort, AddressText, Cleaned, Resolve;
    var v := AddressText(a);
    Printed(a);
    UrlStandard.NothingToClean(v);
    Starts(a);
    TrimmedLeft(a.slashes, AuthorityText(a), IsSlash);
    AuthorityIs(base, a, fold);
    if a.scheme.Some? {
      WithScheme(base, a, fold);
    } else {
      WithoutScheme(base, a, fold);
    }
  }

  lemma WithoutScheme(base: Origin, a: Address, fold: bytes -> bytes)
    requires Writable(a) && a.scheme.None? && Cleaned(AddressText(a)) == AddressText(a)
    requires TrimLeft(a.slashes + AuthorityText(a), IsSlash) == AuthorityText(a)
    ensures Resolve(base, AddressText(a), fold) == Some(Authority(AuthorityText(a), Plaintext(base, a), fold))
  {
    hide Authority, AuthorityText, TrimLeft, Cleaned, SchemeOf;
    var v, rest := AddressText(a), a.slashes + AuthorityText(a);
    assert v == rest && v[0] == a.slashes[0] && v[1] == a.slashes[1];
    NoSchemeHere(v);
  }

  lemma NoSchemeHere(v: bytes)
    requires v != [] && Slash(v[0])
    ensures SchemeOf(v) == NoScheme
  {}

  lemma WithScheme(base: Origin, a: Address, fold: bytes -> bytes)
    requires Writable(a) && a.scheme.Some? && Cleaned(AddressText(a)) == AddressText(a)
    requires TrimLeft(a.slashes + AuthorityText(a), IsSlash) == AuthorityText(a)
    ensures Resolve(base, AddressText(a), fold) == Some(Authority(AuthorityText(a), Plaintext(base, a), fold))
  {
    hide Authority, AuthorityText, TrimLeft, Cleaned, HTTP, HTTPS;
    var scheme, rest, v := a.scheme.value, a.slashes + AuthorityText(a), AddressText(a);
    WebLetters(scheme);
    assert v == scheme + ([58] + rest);
    assert v[..|scheme|] == scheme && v[|scheme|] == 58 && v[|scheme| + 1..] == rest;
    UrlStandard.SchemeIs(v, |scheme|);
    assert rest[0] == a.slashes[0];
  }

  lemma {:induction false} TrimmedRight(x: bytes, p: bytes, drop: byte -> bool)
    requires (forall i :: 0 <= i < |p| ==> drop(p[i])) && (x == [] || !drop(x[|x| - 1]))
    ensures TrimRight(x + p, drop) == x
  {
    if p == [] {
      assert x + p == x;
    } else {
      assert (x + p)[..|x + p| - 1] == x + p[..|p| - 1];
      TrimmedRight(x, p[..|p| - 1], drop);
    }
  }

  /** Spaces and control bytes around an address change nothing about where it leads. */
  lemma PaddingIgnored(base: Origin, before: bytes, value: bytes, after: bytes, fold: bytes -> bytes)
    requires (forall i :: 0 <= i < |before| ==> before[i] <= 32) && (forall i :: 0 <= i < |after| ==> after[i] <= 32)
    requires value != [] && value[0] > 32 && value[|value| - 1] > 32
    ensures Resolve(base, before + (value + after), fold) == Resolve(base, value, fold)
  {
    hide Resolve, Without;
    TrimmedLeft(before, value + after, Blank);
    TrimmedRight(value, after, Blank);
    SameCleaned(base, before + (value + after), value, fold);
  }

  lemma SameCleaned(base: Origin, one: bytes, other: bytes, fold: bytes -> bytes)
    requires Cleaned(one) == Cleaned(other)
    ensures Resolve(base, one, fold) == Resolve(base, other, fold)
  {
    hide Cleaned, SchemeOf, Authority, TrimLeft;
  }

  // ---- What a reference to it says ----

  /** A reference to such an address is somebody else's exactly when its host is another than the
      page's, or it goes over plaintext, or to another port; and it is blocked exactly when it is of a
      kind that is and goes over plaintext. */
  lemma ReferenceMeans(own: bytes, base: Origin, fold: bytes -> bytes, a: Address, kind: Kind, blocking: bool,
                       integrity: bool)
    requires Writable(a) && Whole(fold(a.name)) && own != [] && fold(a.name) != []
    ensures ReferenceTo(own, base, fold, Use(AddressText(a), kind, blocking, integrity)) ==
            Some(Reference(kind, fold(a.name), Plaintext(base, a),
                           !(fold(a.name) == own && !Plaintext(base, a) && !OtherPort(base, a)), integrity,
                           blocking && Plaintext(base, a)))
  {
    hide Resolve;
    AddressReadBack(base, a, fold);
  }
}
