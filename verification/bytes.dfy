/** Go strings are byte sequences, and the generator indexes them byte by byte
    (`charset[k]` is the k-th byte, not the k-th rune). The model therefore
    works on `seq<byte>` throughout. */
module Bytes {

  /** One Go `byte`: an integer in 0..255. */
  type byte = x: int | 0 <= x < 256

  /** True if every character of `s` is 7-bit ASCII, so that its UTF-8
      encoding is one byte per character. */
  predicate IsAscii(s: string) {
    forall i :: 0 <= i < |s| ==> s[i] as int < 128
  }

  /** The bytes of an ASCII string literal, as Go stores it. */
  function Ascii(s: string): (r: seq<byte>)
    requires IsAscii(s)
    ensures |r| == |s|
    ensures forall i :: 0 <= i < |s| ==> r[i] == s[i] as int
  {
    seq(|s|, i requires 0 <= i < |s| => s[i] as int)
  }
}
