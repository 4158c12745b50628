/** Octets, big-endian numbers and ASCII case. */
module Bytes {

  type byte = x: int | 0 <= x < 256

  type bytes = seq<byte>

  function U16(b: bytes, at: nat): (n: int)
    requires at + 2 <= |b|
    ensures 0 <= n < 65536
  {
    (b[at] as int) * 256 + b[at + 1] as int
  }

  function PutU16(n: int): (b: bytes)
    requires 0 <= n < 65536
    ensures |b| == 2 && U16(b, 0) == n
  {
    [n / 256, n % 256]
  }

  function U24(b: bytes, at: nat): (n: int)
    requires at + 3 <= |b|
    ensures 0 <= n < 0x100_0000
  {
    (b[at] as int) * 65536 + (b[at + 1] as int) * 256 + b[at + 2] as int
  }

  function PutU24(n: int): (b: bytes)
    requires 0 <= n < 0x100_0000
    ensures |b| == 3 && U24(b, 0) == n
  {
    [n / 65536, n / 256 % 256, n % 256]
  }

  /** Strings that agree and start with parts of one length start with the same part. */
  lemma SamePrefix<T>(p: seq<T>, s: seq<T>, q: seq<T>, t: seq<T>)
    requires p + s == q + t && |p| == |q|
    ensures p == q && s == t
  {
    assert p == (p + s)[..|p|] && q == (q + t)[..|q|];
    assert s == (p + s)[|p|..] && t == (q + t)[|q|..];
  }

  function Fold(b: byte): byte {
    if 'A' as int <= b <= 'Z' as int then b + 32 else b
  }

  function Folded(s: bytes): (r: bytes)
    ensures |r| == |s|
    ensures forall i :: 0 <= i < |s| ==> r[i] == Fold(s[i])
  {
    seq(|s|, i requires 0 <= i < |s| => Fold(s[i]))
  }

  lemma FoldedConcat(a: bytes, b: bytes)
    ensures Folded(a + b) == Folded(a) + Folded(b)
  {}
}
