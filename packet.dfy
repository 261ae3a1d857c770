/**
 * The four-byte command header (struct everdrive_pkt_hdr) and the seven
 * headers medtool builds with DEFINEPKT: the preamble '+', its bitwise
 * complement, the opcode and the opcode's bitwise complement.
 */
module Packet {
  import opened Wire

  const CMD_PREAMBLE: Byte := 0x2B  // '+'
  const CMD_STATUS: Byte := 0x10
  const CMD_GET_VDC: Byte := 0x13
  const CMD_RTC_GET: Byte := 0x14
  const CMD_RTC_SET: Byte := 0x15
  const CMD_MEM_RD: Byte := 0x19
  const CMD_MEM_WR: Byte := 0x1A
  const CMD_STATUS2: Byte := 0x40

  /** The packed header, field by field in wire order. */
  datatype Header = Header(preamble: Byte, preambleInv: Byte, cmd: Byte, cmdInv: Byte)

  /** The header's self-check: each complement byte is the bitwise NOT of its companion. */
  predicate WellFormed(h: Header)
  {
    h.preambleInv == !h.preamble && h.cmdInv == !h.cmd
  }

  /** DEFINEPKT(cmd). */
  function DefinePkt(cmd: Byte): (h: Header)
    ensures WellFormed(h)
    ensures h.preamble == CMD_PREAMBLE && h.cmd == cmd
  {
    Header(CMD_PREAMBLE, !CMD_PREAMBLE, cmd, !cmd)
  }

  /** The header as send_cmd hands it to write(): sizeof(*hdr) == 4 bytes, no padding. */
  function HeaderBytes(h: Header): (r: seq<Byte>)
    ensures |r| == 4 && FromHeaderBytes(r) == h
  {
    [h.preamble, h.preambleInv, h.cmd, h.cmdInv]
  }

  /** Reading four bytes back as a header, the inverse of HeaderBytes. */
  function FromHeaderBytes(bs: seq<Byte>): Header
    requires |bs| == 4
  {
    Header(bs[0], bs[1], bs[2], bs[3])
  }

  const PKT_STATUS := DefinePkt(CMD_STATUS)
  const PKT_VDC := DefinePkt(CMD_GET_VDC)
  const PKT_RTC_GET := DefinePkt(CMD_RTC_GET)
  const PKT_RTC_SET := DefinePkt(CMD_RTC_SET)
  const PKT_MEMRD := DefinePkt(CMD_MEM_RD)
  const PKT_MEMWR := DefinePkt(CMD_MEM_WR)
  const PKT_STATUS2 := DefinePkt(CMD_STATUS2)

  /** Every DEFINEPKT header is 0x2B 0xD4, the opcode, then the opcode's complement. */
  lemma HeaderLayout(cmd: Byte)
    ensures HeaderBytes(DefinePkt(cmd)) == [0x2B, 0xD4, cmd, !cmd]
  {
  }

  /**
   * DEFINEPKT is the only way to build a well-formed header with preamble '+':
   * such a header is determined by its opcode.
   */
  lemma WellFormedIsDefinePkt(h: Header)
    ensures (WellFormed(h) && h.preamble == CMD_PREAMBLE) <==> h == DefinePkt(h.cmd)
  {
  }

  /** The seven command headers, byte for byte; all seven are distinct on the wire. */
  lemma CommandHeaders()
    ensures HeaderBytes(PKT_STATUS) == [0x2B, 0xD4, 0x10, 0xEF]
    ensures HeaderBytes(PKT_VDC) == [0x2B, 0xD4, 0x13, 0xEC]
    ensures HeaderBytes(PKT_RTC_GET) == [0x2B, 0xD4, 0x14, 0xEB]
    ensures HeaderBytes(PKT_RTC_SET) == [0x2B, 0xD4, 0x15, 0xEA]
    ensures HeaderBytes(PKT_MEMRD) == [0x2B, 0xD4, 0x19, 0xE6]
    ensures HeaderBytes(PKT_MEMWR) == [0x2B, 0xD4, 0x1A, 0xE5]
    ensures HeaderBytes(PKT_STATUS2) == [0x2B, 0xD4, 0x40, 0xBF]
    ensures |{PKT_STATUS.cmd, PKT_VDC.cmd, PKT_RTC_GET.cmd, PKT_RTC_SET.cmd,
              PKT_MEMRD.cmd, PKT_MEMWR.cmd, PKT_STATUS2.cmd}| == 7
  {
  }

  /** The header with the bits of `mask` inverted in byte `i`, as a corrupting line would deliver it. */
  function Corrupt(h: Header, i: nat, mask: Byte): (g: Header)
    requires i < 4
    ensures HeaderBytes(g) == HeaderBytes(h)[i := HeaderBytes(h)[i] ^ mask]
  {
    var bs := HeaderBytes(h);
    var x := bs[i] ^ mask;
    if i == 0 then Header(x, bs[1], bs[2], bs[3])
    else if i == 1 then Header(bs[0], x, bs[2], bs[3])
    else if i == 2 then Header(bs[0], bs[1], x, bs[3])
    else Header(bs[0], bs[1], bs[2], x)
  }

  /**
   * The complement bytes catch every corruption confined to one byte of a
   * well-formed header, single-bit flips included.
   */
  lemma OneByteCorruptionDetected(h: Header, i: nat, mask: Byte)
    requires WellFormed(h) && i < 4 && mask != 0
    ensures !WellFormed(Corrupt(h, i, mask))
  {
    if i == 0 {
      ComplementSeesChange(h.preamble, mask);
    } else if i == 1 {
      ComplementSeesChange(h.preamble, mask);
    } else if i == 2 {
      ComplementSeesChange(h.cmd, mask);
    } else {
      ComplementSeesChange(h.cmd, mask);
    }
  }

  /** Changing either a byte or its complement breaks the complement relation. */
  lemma ComplementSeesChange(x: Byte, mask: Byte)
    requires mask != 0
    ensures !(x ^ mask) != !x && (!x) ^ mask != !x
  {
  }
}
