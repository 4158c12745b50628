/** Characters as bytes. */
module Ascii {
  import opened Bytes

  const TAB: byte := 9
  const NEWLINE: byte := 10
  const FORM_FEED: byte := 12
  const RETURN: byte := 13
  const SPACE: byte := 32
  const BANG: byte := 33
  const DOUBLE_QUOTE: byte := 34
  const HASH: byte := 35
  const SINGLE_QUOTE: byte := 39
  const DASH: byte := 45
  const SLASH: byte := 47
  const COLON: byte := 58
  const LESS: byte := 60
  const EQUALS: byte := 61
  const GREATER: byte := 62
  const QUESTION: byte := 63
  const AT: byte := 64
  const OPEN_BRACKET: byte := 91
  const BACKSLASH: byte := 92
  const CLOSE_BRACKET: byte := 93

  function Text(s: string): (b: bytes)
    requires forall i :: 0 <= i < |s| ==> s[i] as int < 128
  {
    seq(|s|, i requires 0 <= i < |s| => s[i] as int)
  }
}
