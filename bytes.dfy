/** Go strings and byte slices, both modelled as finite sequences of bytes. */
module GoBytes {

  newtype byte = b: int | 0 <= b < 256

  /** A Go `string` or `[]byte`: Go strings are immutable byte sequences, not text. */
  type Bytes = seq<byte>

  /** True when every character of `s` is ASCII, so that it is one byte in UTF-8. */
  predicate IsAscii(s: string)
  {
    forall i :: 0 <= i < |s| ==> s[i] as int < 128
  }

  /** The UTF-8 bytes of an ASCII string literal: one byte per character. */
  function Ascii(s: string): (r: Bytes)
    requires IsAscii(s)
    ensures |r| == |s|
    ensures forall i :: 0 <= i < |s| ==> r[i] as int == s[i] as int
  {
    seq(|s|, i requires 0 <= i < |s| => s[i] as int as byte)
  }

  /** Number of occurrences of byte `c` in `s`. */
  function Count(s: Bytes, c: byte): (n: nat)
    ensures n <= |s|
  {
    if s == [] then 0 else (if s[0] == c then 1 else 0) + Count(s[1..], c)
  }
}
