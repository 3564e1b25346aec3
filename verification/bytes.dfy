/** Bytes of header text and the byte classes the parser tests. */
module Bytes {

  /** One byte of header text. Go's `string(b)` turns byte `b` into the rune
      U+00b, so a byte is modelled as a character no larger than U+00FF and the
      offending byte in an error message is that character itself. */
  type byte = c: char | c <= '\U{FF}' witness ' '

  const SPACE: byte := ' '
  const EQUAL: byte := '='
  const QUOTE: byte := '"'
  const DIV: byte := ','
  const MINUS: byte := '-'

  /** `fromA..toZ` or `froma..toz` (parser.go:13-16). */
  predicate IsLetter(c: byte) {
    ('A' <= c <= 'Z') || ('a' <= c <= 'z')
  }

  /** `from0..to9` (parser.go:21-22). */
  predicate IsDigit(c: byte) {
    '0' <= c <= '9'
  }

  predicate IsLower(c: byte) {
    'a' <= c <= 'z'
  }

  /** Bytes allowed in the name of a Digest algorithm: letters, digits and `-`. */
  predicate IsAlgorithmByte(c: byte) {
    IsLetter(c) || IsDigit(c) || c == MINUS
  }

  predicate IsAscii(c: byte) {
    c <= '\U{7F}'
  }

  predicate AllLetters(s: seq<byte>) {
    forall i :: 0 <= i < |s| ==> IsLetter(s[i])
  }

  predicate AllDigits(s: seq<byte>) {
    forall i :: 0 <= i < |s| ==> IsDigit(s[i])
  }

  predicate AllAlgorithmBytes(s: seq<byte>) {
    forall i :: 0 <= i < |s| ==> IsAlgorithmByte(s[i])
  }

  /** The letters of `s`, in order, with every other byte dropped. */
  function Letters(s: seq<byte>): (r: seq<byte>)
    ensures AllLetters(r)
    ensures |r| <= |s|
  {
    if |s| == 0 then []
    else if IsLetter(s[|s| - 1]) then Letters(s[..|s| - 1]) + [s[|s| - 1]]
    else Letters(s[..|s| - 1])
  }

  /** Go's `strings.ToUpper` on one ASCII byte: only `a..z` change. */
  function ToUpper(c: byte): (u: byte)
    ensures !IsLower(u)
    ensures !IsLower(c) ==> u == c
    ensures IsLower(c) ==> u as int == c as int - 32
    ensures IsLetter(c) <==> IsLetter(u)
  {
    if IsLower(c) then (c as int - 32) as char else c
  }

  /** Go's `strings.ToUpper` on an ASCII string, byte by byte. */
  function ToUpperAll(s: seq<byte>): (u: seq<byte>)
    ensures |u| == |s|
    ensures forall i :: 0 <= i < |s| ==> u[i] == ToUpper(s[i])
  {
    seq(|s|, i requires 0 <= i < |s| => ToUpper(s[i]))
  }
}
