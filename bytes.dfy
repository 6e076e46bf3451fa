/** Bytes and the little-endian integer fields of the TIM layout (`struct` formats `<H` and `<I`). */
module Bytes {
  type byte = x: int | 0 <= x < 256

  const U16Limit: nat := 0x1_0000
  const U32Limit: nat := 0x1_0000_0000

  /** `struct.unpack('<H', ...)`: the u16 stored little-endian at `off`. */
  function ReadU16(s: seq<byte>, off: nat): (v: nat)
    requires off + 2 <= |s|
    ensures v < U16Limit
  {
    s[off] as int + 256 * s[off + 1] as int
  }

  /** `struct.unpack('<I', ...)`: the u32 stored little-endian at `off`. */
  function ReadU32(s: seq<byte>, off: nat): (v: nat)
    requires off + 4 <= |s|
    ensures v < U32Limit
  {
    ReadU16(s, off) + 0x1_0000 * ReadU16(s, off + 2)
  }

  /** `struct.pack('<H', v)`. */
  function U16Bytes(v: nat): (r: seq<byte>)
    requires v < U16Limit
    ensures |r| == 2 && ReadU16(r, 0) == v
  {
    [v % 256, v / 256]
  }

  /** `struct.pack('<I', v)`. */
  function U32Bytes(v: nat): (r: seq<byte>)
    requires v < U32Limit
    ensures |r| == 4 && ReadU32(r, 0) == v
  {
    var lo := v % 0x1_0000;
    var hi := v / 0x1_0000;
    [lo % 256, lo / 256, hi % 256, hi / 256]
  }

  /** Reading a u16 back and packing it again gives the original two bytes. */
  lemma U16BytesOfRead(s: seq<byte>, off: nat)
    requires off + 2 <= |s|
    ensures U16Bytes(ReadU16(s, off)) == s[off..off + 2]
  {
  }

  /** Reading a u32 back and packing it again gives the original four bytes. */
  lemma U32BytesOfRead(s: seq<byte>, off: nat)
    requires off + 4 <= |s|
    ensures U32Bytes(ReadU32(s, off)) == s[off..off + 4]
  {
    var lo, hi := ReadU16(s, off), ReadU16(s, off + 2);
    SplitWord(lo, hi);
    var r := U32Bytes(ReadU32(s, off));
    assert r == [lo % 256, lo / 256, hi % 256, hi / 256];
    SplitWord(s[off], s[off + 1]);
    SplitWord(s[off + 2], s[off + 3]);
  }

  /** The low and high halves of `lo + b * hi` for `lo < b`, at the two widths used here. */
  lemma SplitWord(lo: nat, hi: nat)
    requires lo < U16Limit
    ensures (lo + 0x1_0000 * hi) % 0x1_0000 == lo && (lo + 0x1_0000 * hi) / 0x1_0000 == hi
    ensures lo < 256 ==> (lo + 256 * hi) % 256 == lo && (lo + 256 * hi) / 256 == hi
  {
  }
}
