/**
 * Fixed-width big-endian integers on the wire.
 *
 * medtool converts between host order and the device's big-endian order with
 * htobe16/htobe32 before a write and be16toh/be32toh after a read. Here the
 * conversion is the byte sequence itself, written with shifts and masks, so
 * that no host byte order is involved.
 */
module Wire {

  type Byte = bv8

  /** The two bytes write16 puts on the wire for `v`. */
  function BigEndian16(v: bv16): (r: seq<Byte>)
    ensures |r| == 2
    ensures FromBigEndian16(r) == v
  {
    [(v >> 8) as Byte, (v & 0xFF) as Byte]
  }

  /** The value read16 makes of the two bytes it has read. */
  function FromBigEndian16(bs: seq<Byte>): (r: bv16)
    requires |bs| == 2
    ensures r >> 8 == bs[0] as bv16 && r & 0xFF == bs[1] as bv16
  {
    ((bs[0] as bv16) << 8) | (bs[1] as bv16)
  }

  /** The four bytes write32 puts on the wire for `v`. */
  function BigEndian32(v: bv32): (r: seq<Byte>)
    ensures |r| == 4
    ensures FromBigEndian32(r) == v
  {
    [(v >> 24) as Byte, ((v >> 16) & 0xFF) as Byte, ((v >> 8) & 0xFF) as Byte, (v & 0xFF) as Byte]
  }

  /** The value read32 makes of the four bytes it has read. */
  function FromBigEndian32(bs: seq<Byte>): (r: bv32)
    requires |bs| == 4
    ensures r >> 24 == bs[0] as bv32 && (r >> 16) & 0xFF == bs[1] as bv32
    ensures (r >> 8) & 0xFF == bs[2] as bv32 && r & 0xFF == bs[3] as bv32
  {
    ((bs[0] as bv32) << 24) | ((bs[1] as bv32) << 16) | ((bs[2] as bv32) << 8) | (bs[3] as bv32)
  }

  /** Every two-byte reply is the encoding of exactly the value read16 returns for it. */
  lemma FromBigEndian16Inverse(bs: seq<Byte>)
    requires |bs| == 2
    ensures BigEndian16(FromBigEndian16(bs)) == bs
  {
  }

  /** Every four-byte reply is the encoding of exactly the value read32 returns for it. */
  lemma FromBigEndian32Inverse(bs: seq<Byte>)
    requires |bs| == 4
    ensures BigEndian32(FromBigEndian32(bs)) == bs
  {
  }

  /** Most significant byte first: the leading byte is zero exactly for values below 0x100. */
  lemma BigEndian16MostSignificantFirst(v: bv16)
    ensures BigEndian16(v)[0] == 0 <==> v < 0x100
  {
  }

  /**
   * Most significant byte first for 32 bits: the high half goes out before the
   * low half, and the leading 1, 2 or 3 bytes are zero exactly when the value
   * fits in the remaining 3, 2 or 1 bytes.
   */
  lemma BigEndian32MostSignificantFirst(v: bv32)
    ensures BigEndian32(v) == BigEndian16((v >> 16) as bv16) + BigEndian16((v & 0xFFFF) as bv16)
    ensures BigEndian32(v)[0] == 0 <==> v < 0x100_0000
    ensures BigEndian32(v)[..2] == [0, 0] <==> v < 0x1_0000
    ensures BigEndian32(v)[..3] == [0, 0, 0] <==> v < 0x100
  {
    var r := BigEndian32(v);
    assert r[..2] == [r[0], r[1]];
    assert r[..3] == [r[0], r[1], r[2]];
  }
}
