/** Bytes and C strings, as the original code reads them.
  A C string is a sequence of bytes; reading at its length gives the terminating NUL. */
module Bytes {

  type byte = b: int | 0 <= b < 256

  type bytes = seq<byte>

  /** What `p[i]` yields on the C string `s`: the byte, or the NUL that ends it. */
  function At(s: bytes, i: int): byte {
    if 0 <= i < |s| then s[i] else 0
  }

  /** The byte of an ASCII character. */
  function Ascii(c: char): byte
    requires c as int < 128
  {
    c as int
  }

  predicate NulFree(s: bytes) {
    0 !in s
  }

  /** `isdigit`, `isalpha`, `isalnum`, `isspace`, `isxdigit` and `tolower` of the "C" locale. */
  predicate IsDigit(c: byte) {
    48 <= c <= 57
  }

  predicate IsAlpha(c: byte) {
    65 <= c <= 90 || 97 <= c <= 122
  }

  predicate IsAlnum(c: byte) {
    IsDigit(c) || IsAlpha(c)
  }

  predicate IsSpace(c: byte) {
    c == 32 || 9 <= c <= 13
  }

  predicate IsXDigit(c: byte) {
    IsDigit(c) || 65 <= c <= 70 || 97 <= c <= 102
  }

  function ToLower(c: byte): byte {
    if 65 <= c <= 90 then c + 32 else c
  }

  /** What a C string function sees: the bytes before the first NUL. */
  function BeforeNul(s: bytes): (r: bytes)
    ensures r <= s && NulFree(r)
    ensures NulFree(s) ==> r == s
  {
    if s == [] || s[0] == 0 then []
    else
      assert NulFree(s) ==> NulFree(s[1..]);
      [s[0]] + BeforeNul(s[1..])
  }
}
