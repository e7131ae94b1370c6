/** Bytes, 32-bit unsigned words and the two encodings the PNG container
    uses for them: big-endian packing (Python's struct format '>I') and
    CRC-32 (section 5.5 of the PNG specification, the CRC zlib computes). */
module Bytes {

  type byte = x: int | 0 <= x < 256

  const TWO_32: int := 0x1_0000_0000

  type u32 = x: int | 0 <= x < TWO_32

  /** struct.pack('>I', x) */
  function BE32(x: u32): (r: seq<byte>)
    ensures |r| == 4
  {
    var x1 := x / 256;
    var x2 := x1 / 256;
    [x2 / 256, x2 % 256, x1 % 256, x % 256]
  }

  /** struct.unpack('>I', s) for a buffer of exactly four bytes. */
  function ReadBE32(s: seq<byte>): u32
    requires |s| == 4
  {
    Shift8(Shift8(Shift8(s[0], s[1]), s[2]), s[3])
  }

  /** hi * 256 + lo */
  function Shift8(hi: nat, lo: byte): nat
  {
    hi * 256 + lo
  }

  lemma Shift8Parts(hi: nat, lo: byte)
    ensures Shift8(hi, lo) / 256 == hi && Shift8(hi, lo) % 256 == lo
  {
  }

  /** Unpacking a packed word gives the word back. */
  lemma ReadBE32OfBE32(x: u32)
    ensures ReadBE32(BE32(x)) == x
  {
    var x1 := x / 256;
    var x2 := x1 / 256;
    assert Shift8(x2 / 256, x2 % 256) == x2;
    assert Shift8(x2, x1 % 256) == x1;
    assert Shift8(x1, x % 256) == x;
  }

  /** Packing an unpacked buffer gives the same four bytes. */
  lemma BE32OfReadBE32(s: seq<byte>)
    requires |s| == 4
    ensures BE32(ReadBE32(s)) == s
  {
    var y2 := Shift8(s[0], s[1]);
    var y1 := Shift8(y2, s[2]);
    var x := Shift8(y1, s[3]);
    Shift8Parts(s[0], s[1]);
    Shift8Parts(y2, s[2]);
    Shift8Parts(y1, s[3]);
  }

  /** Two words with the same packing are the same word. */
  lemma BE32Injective(x: u32, y: u32)
    requires BE32(x) == BE32(y)
    ensures x == y
  {
    ReadBE32OfBE32(x);
    ReadBE32OfBE32(y);
  }

  /** The reflected CRC-32 polynomial of section 5.5 of the PNG specification. */
  const CRC_POLY: nat := 0xEDB8_8320

  /** Bits shifted through the register per input byte. */
  const BYTE_BITS: nat := 8

  /** Bits in the CRC register. */
  const WORD_BITS: nat := 32

  function Pow2(n: nat): nat
  {
    if n == 0 then 1 else 2 * Pow2(n - 1)
  }

  /** 2^32, unfolded in steps of eight bits. */
  lemma Pow2Word()
    ensures Pow2(WORD_BITS) == TWO_32
  {
    assert Pow2(8) == 256;
    assert Pow2(16) == 0x1_0000;
    assert Pow2(24) == 0x100_0000;
  }

  /** The exclusive or of the low n bits of a and b. */
  function XorBits(a: nat, b: nat, n: nat): nat
  {
    if n == 0 then 0
    else 2 * XorBits(a / 2, b / 2, n - 1) + (if a % 2 == b % 2 then 0 else 1)
  }

  lemma {:induction false} XorBitsBound(a: nat, b: nat, n: nat)
    ensures XorBits(a, b, n) < Pow2(n)
  {
    if n > 0 {
      XorBitsBound(a / 2, b / 2, n - 1);
    }
  }

  /** The exclusive or of two registers is a 32-bit word. */
  function XorWord(a: nat, b: nat): (r: u32)
    ensures r == XorBits(a, b, WORD_BITS)
  {
    XorBitsBound(a, b, WORD_BITS);
    Pow2Word();
    XorBits(a, b, WORD_BITS)
  }

  /** Shift k bits of the register through the polynomial, low bit first. */
  function CrcShift(c: nat, k: nat): nat
    decreases k
  {
    if k == 0 then c
    else CrcShift(if c % 2 == 1 then XorWord(c / 2, CRC_POLY) else c / 2, k - 1)
  }

  /** Feed the bytes of s into the CRC register. */
  function CrcUpdate(c: nat, s: seq<byte>): nat
    decreases |s|
  {
    if s == [] then c else CrcUpdate(CrcShift(XorWord(c, s[0]), BYTE_BITS), s[1..])
  }

  /** zlib.crc32(s): register preset to all ones, result complemented. */
  function Crc32(s: seq<byte>): u32
  {
    XorWord(CrcUpdate(0xFFFF_FFFF, s), 0xFFFF_FFFF)
  }
}
