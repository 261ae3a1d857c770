/**
 * medtool's FIFO transfers: write_fifo and read_fifo. Both send a memory
 * command (CMD_MEM_WR or CMD_MEM_RD) addressed to the cartridge FIFO and
 * ignore every intermediate result: each write goes out whatever the
 * previous one did, and both functions return 0.
 */
module Fifo {
  import opened Wire
  import opened Packet
  import opened Transport
  import opened Protocol

  /** ADDR_FIFO: the address of the FIFO in the cartridge's memory map. */
  const ADDR_FIFO: bv32 := 0x0181_0000

  /** What a series of writen calls leaves behind: the bytes accepted and the rest of the script. */
  datatype Emitted = Emitted(sent: seq<Byte>, results: seq<int>)

  /** One writen per buffer, in order, each against what is left of the write() script. */
  function Emit(results: seq<int>, bufs: seq<seq<Byte>>): (e: Emitted)
    ensures |e.results| <= |results|
    decreases |bufs|
  {
    if bufs == [] then Emitted([], results)
    else
      var e := Emit(results, bufs[..|bufs| - 1]);
      var w := Write1(e.results, bufs[|bufs| - 1]);
      Emitted(e.sent + w.accepted, w.results)
  }

  /** The buffers one after the other. */
  function Flatten(bufs: seq<seq<Byte>>): seq<Byte>
    decreases |bufs|
  {
    if bufs == [] then [] else Flatten(bufs[..|bufs| - 1]) + bufs[|bufs| - 1]
  }

  /** Each byte as a buffer of its own, as write8 sends it. */
  function Singles(s: seq<Byte>): (r: seq<seq<Byte>>)
    ensures |r| == |s|
    ensures forall i :: 0 <= i < |s| ==> r[i] == [s[i]]
  {
    if s == [] then [] else Singles(s[..|s| - 1]) + [[s[|s| - 1]]]
  }

  /** The memory command's preamble: header, address, length and a zero byte. */
  function MemRequest(hdr: Header, len: bv32): seq<seq<Byte>>
  {
    [HeaderBytes(hdr), BigEndian32(ADDR_FIFO), BigEndian32(len), [0]]
  }

  /** The writes write_fifo makes: the CMD_MEM_WR preamble with length howmuch, then one write8 per byte. */
  function WriteFifoRequests(what: seq<Byte>, howmuch: nat): (r: seq<seq<Byte>>)
    requires howmuch <= |what| && howmuch < 0x8000_0000
    ensures |r| == 4 + howmuch
    ensures r[0] == HeaderBytes(PKT_MEMWR) && r[1] == BigEndian32(ADDR_FIFO)
    ensures r[2] == BigEndian32(howmuch as bv32) && r[3] == [0]
    ensures forall i :: 0 <= i < howmuch ==> r[4 + i] == [what[i]]
  {
    MemRequest(PKT_MEMWR, howmuch as bv32) + Singles(what[..howmuch])
  }

  /** The writes read_fifo makes: the CMD_MEM_RD preamble, always with length 1. */
  function ReadFifoRequests(): (r: seq<seq<Byte>>)
    ensures |r| == 4
    ensures r[0] == HeaderBytes(PKT_MEMRD) && r[1] == BigEndian32(ADDR_FIFO)
    ensures r[2] == BigEndian32(1) && r[3] == [0]
  {
    MemRequest(PKT_MEMRD, 1)
  }

  /** One more buffer at the end is one more writen after the others. */
  lemma EmitSnoc(results: seq<int>, bufs: seq<seq<Byte>>, buf: seq<Byte>)
    ensures var e := Emit(results, bufs);
            var w := Write1(e.results, buf);
            Emit(results, bufs + [buf]) == Emitted(e.sent + w.accepted, w.results)
  {
    assert (bufs + [buf])[..|bufs|] == bufs;
  }

  /** Bytes sent after `before` in four pieces. */
  lemma Concat4(before: seq<Byte>, a0: seq<Byte>, a1: seq<Byte>, a2: seq<Byte>, a3: seq<Byte>)
    ensures before + a0 + a1 + a2 + a3 == before + (a0 + a1 + a2 + a3)
  {
    assert before + a0 + a1 == before + (a0 + a1);
    assert before + (a0 + a1) + a2 == before + (a0 + a1 + a2);
  }

  /** Two writen calls in a row. */
  lemma EmitTwo(results: seq<int>, b0: seq<Byte>, b1: seq<Byte>)
    ensures var w0 := Write1(results, b0);
            var w1 := Write1(w0.results, b1);
            Emit(results, [b0, b1]) == Emitted(w0.accepted + w1.accepted, w1.results)
  {
    var w0 := Write1(results, b0);
    assert Emit(results, [b0]) == Emitted(w0.accepted, w0.results) by {
      EmitSnoc(results, [], b0);
      assert [] + [b0] == [b0];
      assert [] + w0.accepted == w0.accepted;
    }
    EmitSnoc(results, [b0], b1);
    assert [b0] + [b1] == [b0, b1];
  }

  /** Three writen calls in a row. */
  lemma EmitThree(results: seq<int>, b0: seq<Byte>, b1: seq<Byte>, b2: seq<Byte>)
    ensures var w0 := Write1(results, b0);
            var w1 := Write1(w0.results, b1);
            var w2 := Write1(w1.results, b2);
            Emit(results, [b0, b1, b2]) == Emitted(w0.accepted + w1.accepted + w2.accepted, w2.results)
  {
    EmitTwo(results, b0, b1);
    EmitSnoc(results, [b0, b1], b2);
    assert [b0, b1] + [b2] == [b0, b1, b2];
  }

  /** Four writen calls in a row, as each memory command begins. */
  lemma EmitFour(results: seq<int>, b0: seq<Byte>, b1: seq<Byte>, b2: seq<Byte>, b3: seq<Byte>)
    ensures var w0 := Write1(results, b0);
            var w1 := Write1(w0.results, b1);
            var w2 := Write1(w1.results, b2);
            var w3 := Write1(w2.results, b3);
            Emit(results, [b0, b1, b2, b3]) ==
              Emitted(w0.accepted + w1.accepted + w2.accepted + w3.accepted, w3.results)
  {
    EmitThree(results, b0, b1, b2);
    EmitSnoc(results, [b0, b1, b2], b3);
    assert [b0, b1, b2] + [b3] == [b0, b1, b2, b3];
  }

  /**
   * Writes compose: emitting a + b emits a, then b against what is left of
   * the script.
   */
  lemma {:induction false} EmitAppend(results: seq<int>, a: seq<seq<Byte>>, b: seq<seq<Byte>>)
    ensures var ea := Emit(results, a);
            var eb := Emit(ea.results, b);
            Emit(results, a + b) == Emitted(ea.sent + eb.sent, eb.results)
    decreases |b|
  {
    var ea := Emit(results, a);
    if b == [] {
      assert a + b == a;
      assert ea.sent + [] == ea.sent;
    } else {
      var init := b[..|b| - 1];
      var last := b[|b| - 1];
      assert a + b == (a + init) + [last];
      assert b == init + [last];
      EmitSnoc(results, a + init, last);
      EmitSnoc(ea.results, init, last);
      EmitAppend(results, a, init);
      var ei := Emit(ea.results, init);
      var w := Write1(ei.results, last);
      assert (ea.sent + ei.sent) + w.accepted == ea.sent + (ei.sent + w.accepted);
    }
  }

  /** With write() taking every buffer whole, the wire carries the buffers one after the other. */
  lemma {:induction false} EmitWholeWrites(bufs: seq<seq<Byte>>)
    ensures Emit([], bufs) == Emitted(Flatten(bufs), [])
    decreases |bufs|
  {
    if bufs != [] {
      EmitWholeWrites(bufs[..|bufs| - 1]);
    }
  }

  /** Sending every byte on its own sends the bytes. */
  lemma {:induction false} FlattenSingles(s: seq<Byte>)
    ensures Flatten(Singles(s)) == s
    decreases |s|
  {
    if s != [] {
      var init := s[..|s| - 1];
      FlattenSingles(init);
      assert Singles(s)[..|s| - 1] == Singles(init);
      assert init + [s[|s| - 1]] == s;
    }
  }

  /** One more payload byte is one more single-byte buffer after the others. */
  lemma PayloadStep(head: seq<seq<Byte>>, what: seq<Byte>, i: nat)
    requires i < |what|
    ensures head + Singles(what[..i + 1]) == (head + Singles(what[..i])) + [[what[i]]]
  {
    assert what[..i + 1][..i] == what[..i];
    assert Singles(what[..i + 1]) == Singles(what[..i]) + [[what[i]]];
  }

  lemma AppendAssoc(a: seq<Byte>, b: seq<Byte>, c: seq<Byte>)
    ensures (a + b) + c == a + (b + c)
  {
  }

  /**
   * write_fifo: the CMD_MEM_WR header, the FIFO address, the length (howmuch
   * as a 32-bit word), a zero byte, then the payload one write8 at a time.
   * Nothing it calls can make it stop early, and it always returns 0.
   */
  method WriteFifo(port: Port, what: seq<Byte>, howmuch: nat) returns (ret: int)
    requires howmuch <= |what| && howmuch < 0x8000_0000
    modifies port
    ensures ret == 0
    ensures var e := Emit(old(port.writeResults), WriteFifoRequests(what, howmuch));
            port.sent == old(port.sent) + e.sent && port.writeResults == e.results
    ensures port.pending == old(port.pending)
  {
    var addr: bv32 := ADDR_FIFO;
    var len: nat := howmuch;
    ghost var r0 := port.writeResults;
    ghost var s0 := port.sent;
    ghost var head := MemRequest(PKT_MEMWR, howmuch as bv32);
    var _ := SendCmd(port, PKT_MEMWR);
    var _ := Write32(port, addr);
    var _ := Write32(port, len as bv32);
    var _ := Write8(port, 0);
    EmitFour(r0, HeaderBytes(PKT_MEMWR), BigEndian32(ADDR_FIFO), BigEndian32(howmuch as bv32), [0]);
    ghost var w0 := Write1(r0, HeaderBytes(PKT_MEMWR));
    ghost var w1 := Write1(w0.results, BigEndian32(ADDR_FIFO));
    ghost var w2 := Write1(w1.results, BigEndian32(howmuch as bv32));
    Concat4(s0, w0.accepted, w1.accepted, w2.accepted, Write1(w2.results, [0]).accepted);
    ghost var e := Emit(r0, head);
    assert port.sent == s0 + e.sent;
    assert head + Singles(what[..0]) == head;
    var i := 0;
    while i < len
      invariant 0 <= i <= len
      invariant var e := Emit(r0, head + Singles(what[..i]));
                port.sent == s0 + e.sent && port.writeResults == e.results
      invariant port.pending == old(port.pending)
    {
      ghost var before := head + Singles(what[..i]);
      ghost var e := Emit(r0, before);
      var _ := Write8(port, what[i]);
      PayloadStep(head, what, i);
      EmitSnoc(r0, before, [what[i]]);
      AppendAssoc(s0, e.sent, Write1(e.results, [what[i]]).accepted);
      i := i + 1;
    }
    return 0;
  }

  /**
   * read_fifo: the CMD_MEM_RD header, the FIFO address, a length of 1 whatever
   * `howmuch` asks for, a zero byte, then one read8 whose byte is dropped.
   * Every result is ignored and it returns 0.
   */
  method ReadFifo(port: Port, howmuch: nat) returns (ret: int)
    requires port.Valid() && Answers(port.pending, 1)
    modifies port
    ensures port.Valid()
    ensures ret == 0
    ensures var e := Emit(old(port.writeResults), ReadFifoRequests());
            port.sent == old(port.sent) + e.sent && port.writeResults == e.results
    ensures port.pending == ReadN(old(port.pending), 1).rest
  {
    var addr: bv32 := ADDR_FIFO;
    var len: bv32 := 1;
    var result: Byte := 0;
    ghost var r0 := port.writeResults;
    ghost var s0 := port.sent;
    var _ := SendCmd(port, PKT_MEMRD);
    var _ := Write32(port, addr);
    var _ := Write32(port, len);
    var _ := Write8(port, 0);
    EmitFour(r0, HeaderBytes(PKT_MEMRD), BigEndian32(ADDR_FIFO), BigEndian32(1), [0]);
    ghost var w0 := Write1(r0, HeaderBytes(PKT_MEMRD));
    ghost var w1 := Write1(w0.results, BigEndian32(ADDR_FIFO));
    ghost var w2 := Write1(w1.results, BigEndian32(1));
    Concat4(s0, w0.accepted, w1.accepted, w2.accepted, Write1(w2.results, [0]).accepted);
    ghost var e := Emit(r0, ReadFifoRequests());
    assert port.sent == s0 + e.sent;
    var _, _ := Read8(port, result);
    return 0;
  }

  /**
   * What write_fifo puts on the wire when every write() takes its whole
   * buffer: 13 bytes of request (header 2B D4 1A E5, address 01 81 00 00,
   * howmuch as four big-endian bytes, a zero byte) and then the payload, so
   * the length field matches the number of payload bytes that follow.
   */
  lemma WriteFifoWire(what: seq<Byte>, howmuch: nat)
    requires howmuch <= |what| && howmuch < 0x8000_0000
    ensures var wire := Emit([], WriteFifoRequests(what, howmuch)).sent;
            wire == [0x2B, 0xD4, 0x1A, 0xE5, 0x01, 0x81, 0x00, 0x00] +
                    BigEndian32(howmuch as bv32) + [0x00] + what[..howmuch] &&
            |wire| == 13 + howmuch &&
            FromBigEndian32(wire[8..12]) == howmuch as bv32 && wire[13..] == what[..howmuch]
  {
    var head := MemRequest(PKT_MEMWR, howmuch as bv32);
    var payload := what[..howmuch];
    var len := BigEndian32(howmuch as bv32);
    var pre: seq<Byte> := [0x2B, 0xD4, 0x1A, 0xE5, 0x01, 0x81, 0x00, 0x00];
    assert Emit([], head) == Emitted(pre + len + [0], []) by {
      EmitFour([], HeaderBytes(PKT_MEMWR), BigEndian32(ADDR_FIFO), len, [0]);
      HeaderLayout(CMD_MEM_WR);
      assert BigEndian32(ADDR_FIFO) == [0x01, 0x81, 0x00, 0x00];
      assert HeaderBytes(PKT_MEMWR) + BigEndian32(ADDR_FIFO) == pre;
    }
    assert Emit([], Singles(payload)) == Emitted(payload, []) by {
      EmitWholeWrites(Singles(payload));
      FlattenSingles(payload);
    }
    EmitAppend([], head, Singles(payload));
    var wire := Emit([], WriteFifoRequests(what, howmuch)).sent;
    assert wire == pre + len + [0] + payload;
    assert wire[8..12] == len;
    assert wire[13..] == payload;
  }

  /**
   * What read_fifo puts on the wire when every write() takes its whole
   * buffer: header 2B D4 19 E6, address 01 81 00 00, length 00 00 00 01 and a
   * zero byte; `howmuch` plays no part.
   */
  lemma ReadFifoWire()
    ensures Emit([], ReadFifoRequests()).sent ==
              [0x2B, 0xD4, 0x19, 0xE6, 0x01, 0x81, 0x00, 0x00, 0x00, 0x00, 0x00, 0x01, 0x00]
  {
    EmitFour([], HeaderBytes(PKT_MEMRD), BigEndian32(ADDR_FIFO), BigEndian32(1), [0]);
    HeaderLayout(CMD_MEM_RD);
    assert BigEndian32(ADDR_FIFO) == [0x01, 0x81, 0x00, 0x00];
    assert BigEndian32(1) == [0x00, 0x00, 0x00, 0x01];
  }

  /**
   * write_fifo ignores send_cmd's result: when write() refuses the header,
   * the address, length, zero byte and payload still go out, against the
   * rest of the script.
   */
  lemma WriteFifoAfterLostHeader(results: seq<int>, what: seq<Byte>, howmuch: nat)
    requires howmuch <= |what| && howmuch < 0x8000_0000
    requires results != [] && results[0] < 0
    ensures var reqs := WriteFifoRequests(what, howmuch);
            Emit(results, reqs) == Emit(results[1..], reqs[1..])
  {
    var reqs := WriteFifoRequests(what, howmuch);
    assert reqs == [reqs[0]] + reqs[1..];
    EmitAppend(results, [reqs[0]], reqs[1..]);
    EmitSnoc(results, [], reqs[0]);
    assert [] + [reqs[0]] == [reqs[0]];
  }
}
