/**
 * The gzip wire constants (RFC 1952, section 2.3.1), the libdeflate result
 * codes, the tests of FLG bits, and little-endian reads of 2 and 4 bytes.
 */
module GzipConstants {

  /** A C `u8`. */
  newtype byte = x: int | 0 <= x < 0x100

  /** A C `u32`. */
  newtype u32 = x: int | 0 <= x < 0x1_0000_0000

  /** The libdeflate result codes (`enum libdeflate_result`). */
  datatype Status = Success | BadData | ShortOutput | InsufficientSpace

  // Fixed header bytes.
  const ID1: byte := 0x1F
  const ID2: byte := 0x8B
  const CM_DEFLATE: byte := 8

  // Bits of the FLG byte. Bit 0 (FTEXT) is a hint this decoder ignores.
  const FTEXT: byte := 0x01
  const FHCRC: byte := 0x02
  const FEXTRA: byte := 0x04
  const FNAME: byte := 0x08
  const FCOMMENT: byte := 0x10
  const FRESERVED: byte := 0xE0

  // Sizes: fixed header, trailer (CRC-32 then ISIZE), and their sum.
  const HEADER_SIZE: nat := 10
  const FOOTER_SIZE: nat := 8
  const MIN_OVERHEAD: nat := HEADER_SIZE + FOOTER_SIZE

  /** `flg & bit` is non-zero, for one of the single-bit masks FTEXT to
      FCOMMENT. */
  function HasFlag(flg: byte, bit: byte): (b: bool)
    requires bit in {FTEXT, FHCRC, FEXTRA, FNAME, FCOMMENT}
    ensures b ==> bit <= flg
    ensures flg == bit ==> b
  {
    (flg as int / bit as int) % 2 == 1
  }

  /** `flg & FRESERVED` is non-zero: one of bits 5 to 7 is set. */
  function HasReserved(flg: byte): (b: bool)
    ensures b <==> flg as int / 0x20 != 0
  {
    flg as int >= 0x20
  }

  /** The two predicates above are C's bitwise `&` on a `u8`. */
  lemma FlagTestsAreBitwise(flg: byte)
    ensures HasFlag(flg, FTEXT) == ((flg as bv8) & (FTEXT as bv8) != 0)
    ensures HasFlag(flg, FHCRC) == ((flg as bv8) & (FHCRC as bv8) != 0)
    ensures HasFlag(flg, FEXTRA) == ((flg as bv8) & (FEXTRA as bv8) != 0)
    ensures HasFlag(flg, FNAME) == ((flg as bv8) & (FNAME as bv8) != 0)
    ensures HasFlag(flg, FCOMMENT) == ((flg as bv8) & (FCOMMENT as bv8) != 0)
    ensures HasReserved(flg) == ((flg as bv8) & (FRESERVED as bv8) != 0)
  {
  }

  /** A non-negative number split at its low byte. */
  lemma SplitLowByte(lo: int, hi: int)
    requires 0 <= lo < 0x100 && 0 <= hi
    ensures (lo + 0x100 * hi) % 0x100 == lo && (lo + 0x100 * hi) / 0x100 == hi
  {
  }

  /** `get_unaligned_le16`: the 2 bytes at `i`, least significant first. */
  function LE16(s: seq<byte>, i: nat): (v: nat)
    requires i + 2 <= |s|
    ensures v < 0x1_0000
    ensures v % 0x100 == s[i] as nat && v / 0x100 == s[i + 1] as nat
  {
    SplitLowByte(s[i] as int, s[i + 1] as int);
    s[i] as nat + 0x100 * s[i + 1] as nat
  }

  /** A 32-bit value as 4 little-endian bytes: the inverse of `LE32`. */
  function LE32Bytes(v: u32): (b: seq<byte>)
    ensures |b| == 4
    ensures b[0] as int + 0x100 * (b[1] as int + 0x100 * (b[2] as int + 0x100 * b[3] as int)) == v as int
  {
    var n := v as int;
    var b0, r0 := n % 0x100, n / 0x100;
    var b1, r1 := r0 % 0x100, r0 / 0x100;
    var b2, b3 := r1 % 0x100, r1 / 0x100;
    assert n == b0 + 0x100 * (b1 + 0x100 * (b2 + 0x100 * b3));
    [b0 as byte, b1 as byte, b2 as byte, b3 as byte]
  }

  /** `get_unaligned_le32`: the 4 bytes at `i`, least significant first. */
  function LE32(s: seq<byte>, i: nat): (v: u32)
    requires i + 4 <= |s|
    ensures var b := LE32Bytes(v); b[0] == s[i] && b[1] == s[i + 1] && b[2] == s[i + 2] && b[3] == s[i + 3]
  {
    var b0, b1, b2, b3 := s[i] as int, s[i + 1] as int, s[i + 2] as int, s[i + 3] as int;
    var r1 := b2 + 0x100 * b3;
    var r0 := b1 + 0x100 * r1;
    var n := b0 + 0x100 * r0;
    SplitLowByte(b0, r0);
    SplitLowByte(b1, r1);
    SplitLowByte(b2, b3);
    var v := n as u32;
    assert LE32Bytes(v) == [s[i], s[i + 1], s[i + 2], s[i + 3]];
    v
  }

  /** `LE32` reads back what `LE32Bytes` writes. */
  lemma LE32OfBytes(v: u32)
    ensures LE32(LE32Bytes(v), 0) == v
  {
    var b := LE32Bytes(v);
    assert LE32Bytes(LE32(b, 0)) == b;
  }

  /** The C conversion `(u32)n` of a `size_t`: keep the low 32 bits. */
  function Low32(n: nat): (v: u32)
    ensures n < 0x1_0000_0000 ==> v as int == n
  {
    (n % 0x1_0000_0000) as u32
  }
}
