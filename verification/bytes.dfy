/** Bytes and the big-endian unsigned 16-bit fields (struct format `!H`) of the VarProxy wire format. */
module Bytes {

  type byte = b: int | 0 <= b < 0x100

  type bytes = seq<byte>

  type u16 = n: int | 0 <= n < 0x1_0000

  const U16_MAX := 0xFFFF

  /** struct.pack accepts an `H` argument exactly when this holds. */
  predicate FitsU16(n: int) {
    0 <= n <= U16_MAX
  }

  /** The two bytes `struct.pack("!H", n)` produces. */
  function BE16(n: u16): (r: bytes)
    ensures |r| == 2
  {
    [n / 0x100, n % 0x100]
  }

  /** The `H` field that `struct.unpack` reads at offset `off`. */
  function U16At(s: bytes, off: nat): u16
    requires off + 2 <= |s|
  {
    s[off] as int * 0x100 + s[off + 1] as int
  }

  /** Packing a field read from a frame gives back the frame's two bytes. */
  lemma U16AtThenBE16(s: bytes, off: nat)
    requires off + 2 <= |s|
    ensures BE16(U16At(s, off)) == s[off..off + 2]
  {
  }

  /** A field read from the middle of a concatenation reads the middle piece. */
  lemma U16AtSplit(a: bytes, b: bytes, c: bytes)
    requires |b| == 2
    ensures U16At(a + b + c, |a|) == U16At(b, 0)
  {
  }
}
