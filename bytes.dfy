/** Bytes as the client sends and receives them, and the byte-level helpers of Python's `bytes`. */
module Bytes {
  import opened Seqs

  newtype byte = x: int | 0 <= x < 256

  type Bytes = seq<byte>

  /** Python's `bytes.isspace` for one byte: space, `\t`, `\n`, `\r`, `\x0b`, `\x0c`. */
  predicate IsAsciiSpace(b: byte)
  {
    b == 0x20 || (0x09 <= b <= 0x0D)
  }

  /** Python's `bytes.strip()`. */
  function BytesStrip(b: Bytes): Bytes
  {
    Strip(b, IsAsciiSpace)
  }

  predicate IsNul(b: byte)
  {
    b == 0
  }

  /** The bytes of an ASCII string, one per character. */
  function Ascii(s: string): (b: Bytes)
    requires forall i :: 0 <= i < |s| ==> s[i] < '\U{80}'
    ensures |b| == |s| && forall i :: 0 <= i < |s| ==> b[i] as int == s[i] as int
  {
    seq(|s|, i requires 0 <= i < |s| => s[i] as int as byte)
  }
}
