/**
 * medtool's request/response layer over the serial port: writen and the
 * write8/16/32 helpers, send_cmd, readn and read8/16/32, and the four query
 * commands get_status2, get_status, get_vdc and get_rtc.
 *
 * Every function takes the port by reference and reports errors the way the
 * source does, through an int result; what the source prints about a reply is
 * returned as a value instead.
 */
module Protocol {
  import opened Wire
  import opened Wrappers
  import opened Packet
  import opened Status
  import opened Transport

  /** writen: one write() of the whole buffer; its result is passed back unchanged. */
  method Writen(port: Port, src: seq<Byte>) returns (ret: int)
    modifies port
    ensures var w := Write1(old(port.writeResults), src);
            ret == w.ret && port.sent == old(port.sent) + w.accepted && port.writeResults == w.results
    ensures port.pending == old(port.pending)
  {
    ret := port.Write(src);
  }

  /** write8: one byte; the result of writen is ignored. */
  method Write8(port: Port, value: Byte) returns (ret: int)
    modifies port
    ensures ret == 0
    ensures var w := Write1(old(port.writeResults), [value]);
            port.sent == old(port.sent) + w.accepted && port.writeResults == w.results
    ensures port.pending == old(port.pending)
  {
    var _ := Writen(port, [value]);
    ret := 0;
  }

  /** write16: two bytes, most significant first; the result of writen is ignored. */
  method Write16(port: Port, value: bv16) returns (ret: int)
    modifies port
    ensures ret == 0
    ensures var w := Write1(old(port.writeResults), BigEndian16(value));
            port.sent == old(port.sent) + w.accepted && port.writeResults == w.results
    ensures port.pending == old(port.pending)
  {
    var _ := Writen(port, BigEndian16(value));
    ret := 0;
  }

  /** write32: four bytes, most significant first; the result of writen is ignored. */
  method Write32(port: Port, value: bv32) returns (ret: int)
    modifies port
    ensures ret == 0
    ensures var w := Write1(old(port.writeResults), BigEndian32(value));
            port.sent == old(port.sent) + w.accepted && port.writeResults == w.results
    ensures port.pending == old(port.pending)
  {
    var _ := Writen(port, BigEndian32(value));
    ret := 0;
  }

  /** Whether write() takes all four header bytes of `hdr`. */
  predicate HeaderGoesOut(results: seq<int>, hdr: Header): (b: bool)
    ensures b <==> Write1(results, HeaderBytes(hdr)).accepted == HeaderBytes(hdr)
  {
    Write1(results, HeaderBytes(hdr)).ret == 4
  }

  /** send_cmd: -1 unless write() took the whole header, 0 otherwise. */
  method SendCmd(port: Port, hdr: Header) returns (ret: int)
    modifies port
    ensures ret == (if HeaderGoesOut(old(port.writeResults), hdr) then 0 else -1)
    ensures ret == 0 <==> port.sent == old(port.sent) + HeaderBytes(hdr)
    ensures var w := Write1(old(port.writeResults), HeaderBytes(hdr));
            port.sent == old(port.sent) + w.accepted && port.writeResults == w.results
    ensures port.pending == old(port.pending)
  {
    ret := Writen(port, HeaderBytes(hdr));
    if ret != 4 {
      return -1;
    }
    return 0;
  }

  /**
   * readn: call read() for the bytes still missing until `howmuch` have
   * arrived, advancing through dst; a negative read() result is returned at
   * once. On success dst[..howmuch] holds the bytes in arrival order.
   */
  method Readn(port: Port, dst: array<Byte>, howmuch: nat) returns (ret: int)
    requires port.Valid() && howmuch <= dst.Length && Answers(port.pending, howmuch)
    modifies port, dst
    ensures port.Valid()
    ensures port.sent == old(port.sent) && port.writeResults == old(port.writeResults)
    ensures var c := ReadN(old(port.pending), howmuch);
            !c.Starved? && port.pending == c.rest &&
            (c.Got? ==> ret == howmuch && dst[..howmuch] == c.data) &&
            (c.Failed? ==> ret == c.code && ret < 0)
    ensures dst[howmuch..] == old(dst[howmuch..])
  {
    ghost var start := port.pending;
    ghost var got: seq<Byte> := [];
    var remaining: int := howmuch;
    var cur: int := 0;
    while remaining != 0
      invariant 0 <= cur && 0 <= remaining && cur + remaining == howmuch
      invariant port.Valid()
      invariant port.sent == old(port.sent) && port.writeResults == old(port.writeResults)
      invariant dst[..cur] == got
      invariant ReadN(start, howmuch) == Prepend(got, ReadN(port.pending, remaining))
      invariant dst[howmuch..] == old(dst[howmuch..])
      decreases remaining
    {
      ghost var before := port.pending;
      ReadnStep(ReadN(start, howmuch), got, before, remaining);
      ret := port.Read(dst, cur, remaining);
      if ret < 0 {
        return;
      }
      ghost var s := Read1(before, remaining);
      assert dst[..cur + ret] == got + s.got by {
        assert dst[..cur + ret] == dst[..cur] + dst[cur..cur + ret];
      }
      got := got + s.got;
      cur := cur + ret;
      remaining := remaining - ret;
    }
    assert got + [] == got;
    ret := howmuch;
  }

  /**
   * One pass of readn's loop: with bytes still missing the input is not
   * exhausted; a failed read() ends the collection with its code, and
   * otherwise the bytes it delivered join those read before.
   */
  lemma ReadnStep(whole: Collected, done: seq<Byte>, before: seq<Chunk>, remaining: nat)
    requires remaining > 0 && whole == Prepend(done, ReadN(before, remaining)) && !whole.Starved?
    ensures before != []
    ensures before[0].Failure? ==> whole == Failed(before[0].code, before[1..])
    ensures before[0].Data? ==>
              var s := Read1(before, remaining);
              whole == Prepend(done + s.got, ReadN(s.rest, remaining - |s.got|))
  {
    if before[0].Data? {
      var s := Read1(before, remaining);
      PrependPrepend(done, s.got, ReadN(s.rest, remaining - |s.got|));
    }
  }

  /** read8: -1 and the target untouched unless readn delivered the byte. */
  method Read8(port: Port, prior: Byte) returns (ret: int, result: Byte)
    requires port.Valid() && Answers(port.pending, 1)
    modifies port
    ensures port.Valid()
    ensures port.sent == old(port.sent) && port.writeResults == old(port.writeResults)
    ensures var c := ReadN(old(port.pending), 1);
            !c.Starved? && port.pending == c.rest &&
            (if c.Got? then ret == 0 && |c.data| == 1 && result == c.data[0] else ret == -1 && result == prior)
  {
    ReadNMeaning(port.pending, 1);
    var tmp := new Byte[1];
    var n := Readn(port, tmp, 1);
    if n != 1 {
      return -1, prior;
    }
    return 0, tmp[0];
  }

  /** read16: -1 and the target untouched unless readn delivered both bytes. */
  method Read16(port: Port, prior: bv16) returns (ret: int, result: bv16)
    requires port.Valid() && Answers(port.pending, 2)
    modifies port
    ensures port.Valid()
    ensures port.sent == old(port.sent) && port.writeResults == old(port.writeResults)
    ensures var c := ReadN(old(port.pending), 2);
            !c.Starved? && port.pending == c.rest &&
            (if c.Got? then ret == 0 && |c.data| == 2 && result == FromBigEndian16(c.data)
             else ret == -1 && result == prior)
  {
    ReadNMeaning(port.pending, 2);
    var tmp := new Byte[2];
    var n := Readn(port, tmp, 2);
    if n != 2 {
      return -1, prior;
    }
    return 0, FromBigEndian16(tmp[..]);
  }

  /** read32: -1 and the target untouched unless readn delivered all four bytes. */
  method Read32(port: Port, prior: bv32) returns (ret: int, result: bv32)
    requires port.Valid() && Answers(port.pending, 4)
    modifies port
    ensures port.Valid()
    ensures port.sent == old(port.sent) && port.writeResults == old(port.writeResults)
    ensures var c := ReadN(old(port.pending), 4);
            !c.Starved? && port.pending == c.rest &&
            (if c.Got? then ret == 0 && |c.data| == 4 && result == FromBigEndian32(c.data)
             else ret == -1 && result == prior)
  {
    ReadNMeaning(port.pending, 4);
    var tmp := new Byte[4];
    var n := Readn(port, tmp, 4);
    if n != 4 {
      return -1, prior;
    }
    return 0, FromBigEndian32(tmp[..]);
  }

  /** The outcome of one query command: result, reply bytes, and the port's new state. */
  datatype Exchange = Exchange(ret: int, reply: seq<Byte>, sent: seq<Byte>, results: seq<int>, pending: seq<Chunk>)

  /**
   * A query round trip: send_cmd writes the header; only if write() took all
   * four bytes are the reply fields read, one readn per entry of `fields`,
   * stopping at the first that fails. The result is 0 when the whole reply
   * arrived and -1 otherwise.
   */
  function Command(results: seq<int>, pending: seq<Chunk>, hdr: Header, fields: seq<nat>): (x: Exchange)
    requires HeaderGoesOut(results, hdr) ==> Answers(pending, Total(fields))
    ensures var w := Write1(results, HeaderBytes(hdr));
            x.sent == w.accepted && x.results == w.results
    ensures x.ret == 0 || x.ret == -1
    ensures x.ret == 0 <==> HeaderGoesOut(results, hdr) && |Arrived(pending)| >= Total(fields)
    ensures x.ret == 0 ==>
              x.sent == HeaderBytes(hdr) && |x.reply| == Total(fields) &&
              x.reply == Arrived(pending)[..Total(fields)] &&
              Arrived(x.pending) == Arrived(pending)[Total(fields)..]
    ensures x.ret != 0 ==> x.reply == []
    ensures !HeaderGoesOut(results, hdr) ==> x.pending == pending
    ensures x.ret != 0 && HeaderGoesOut(results, hdr) ==>
              FirstFailure(pending) < |pending| && x.pending == pending[FirstFailure(pending) + 1..]
    ensures x.ret == 0 ==> x.pending[FirstFailure(x.pending)..] == pending[FirstFailure(pending)..]
  {
    var w := Write1(results, HeaderBytes(hdr));
    if w.ret != 4 then Exchange(-1, [], w.accepted, w.results, pending)
    else
      ReadsAsOne(pending, fields);
      ReadNMeaning(pending, Total(fields));
      var c := Reads(pending, fields);
      if c.Got? then Exchange(0, c.data, w.accepted, w.results, c.rest)
      else Exchange(-1, [], w.accepted, w.results, c.rest)
  }

  /** Once the header has gone out, a query's outcome is that of reading its fields in turn. */
  lemma CommandAfterSend(results: seq<int>, pending: seq<Chunk>, hdr: Header, fields: seq<nat>)
    requires HeaderGoesOut(results, hdr) && Answers(pending, Total(fields))
    ensures !Reads(pending, fields).Starved?
    ensures var c := Reads(pending, fields);
            var x := Command(results, pending, hdr, fields);
            x.sent == HeaderBytes(hdr) && x.results == Write1(results, HeaderBytes(hdr)).results &&
            x.pending == c.rest && x.ret == (if c.Got? then 0 else -1) &&
            (c.Got? ==> x.reply == c.data)
  {
    ReadsAsOne(pending, fields);
  }

  /** get_status2: CMD_STATUS2, then one 32-bit word, judged by ClassifyStatus2. */
  method GetStatus2(port: Port) returns (ret: int, report: Option<Status2Report>)
    requires port.Valid()
    requires HeaderGoesOut(port.writeResults, PKT_STATUS2) ==> Answers(port.pending, 4)
    modifies port
    ensures port.Valid()
    ensures var x := Command(old(port.writeResults), old(port.pending), PKT_STATUS2, [4]);
            ret == x.ret && port.sent == old(port.sent) + x.sent &&
            port.writeResults == x.results && port.pending == x.pending &&
            report == (if ret == 0 then Some(ClassifyStatus2(FromBigEndian32(x.reply))) else None)
  {
    var status2: bv32 := 0;
    report := None;
    ret := SendCmd(port, PKT_STATUS2);
    if ret != 0 {
      return;
    }
    CommandAfterSend(old(port.writeResults), port.pending, PKT_STATUS2, [4]);
    ghost var c := ReadN(port.pending, 4);
    ret, status2 := Read32(port, status2);
    if ret != 0 {
      return;
    }
    assert c.data + [] == c.data;
    report := Some(ClassifyStatus2(status2));
    return 0, report;
  }

  /** get_status: CMD_STATUS, then one 16-bit word, judged against STATUS_MASK. */
  method GetStatus(port: Port) returns (ret: int, report: Option<StatusReport>)
    requires port.Valid()
    requires HeaderGoesOut(port.writeResults, PKT_STATUS) ==> Answers(port.pending, 2)
    modifies port
    ensures port.Valid()
    ensures var x := Command(old(port.writeResults), old(port.pending), PKT_STATUS, [2]);
            ret == x.ret && port.sent == old(port.sent) + x.sent &&
            port.writeResults == x.results && port.pending == x.pending &&
            report == (if ret == 0 then Some(ClassifyStatus(FromBigEndian16(x.reply))) else None)
  {
    var status: bv16 := 0;
    report := None;
    ret := SendCmd(port, PKT_STATUS);
    if ret != 0 {
      return;
    }
    CommandAfterSend(old(port.writeResults), port.pending, PKT_STATUS, [2]);
    ghost var c := ReadN(port.pending, 2);
    ret, status := Read16(port, status);
    if ret != 0 {
      return;
    }
    assert c.data + [] == c.data;
    report := Some(ClassifyStatus(status));
    return 0, report;
  }

  /**
   * get_vdc: CMD_GET_VDC, then four 16-bit readings read one after the other
   * into the same variable, which is then dropped.
   */
  method GetVdc(port: Port) returns (ret: int)
    requires port.Valid()
    requires HeaderGoesOut(port.writeResults, PKT_VDC) ==> Answers(port.pending, 8)
    modifies port
    ensures port.Valid()
    ensures var x := Command(old(port.writeResults), old(port.pending), PKT_VDC, [2, 2, 2, 2]);
            ret == x.ret && port.sent == old(port.sent) + x.sent &&
            port.writeResults == x.results && port.pending == x.pending
  {
    var vdc: bv16 := 0;
    ret := SendCmd(port, PKT_VDC);
    if ret != 0 {
      return;
    }
    CommandAfterSend(old(port.writeResults), port.pending, PKT_VDC, [2, 2, 2, 2]);
    assert [2, 2, 2, 2][1..] == [2, 2, 2] && [2, 2, 2][1..] == [2, 2];
    assert [2, 2][1..] == [2] && [2][1..] == [];
    ret, vdc := Read16(port, vdc);
    if ret != 0 {
      return;
    }
    ret, vdc := Read16(port, vdc);
    if ret != 0 {
      return;
    }
    ret, vdc := Read16(port, vdc);
    if ret != 0 {
      return;
    }
    ret, vdc := Read16(port, vdc);
    if ret != 0 {
      return;
    }
    return 0;
  }

  /**
   * get_rtc: CMD_RTC_GET, then six one-byte fields read one after the other
   * into the same variable, which is then dropped.
   */
  method GetRtc(port: Port) returns (ret: int)
    requires port.Valid()
    requires HeaderGoesOut(port.writeResults, PKT_RTC_GET) ==> Answers(port.pending, 6)
    modifies port
    ensures port.Valid()
    ensures var x := Command(old(port.writeResults), old(port.pending), PKT_RTC_GET, [1, 1, 1, 1, 1, 1]);
            ret == x.ret && port.sent == old(port.sent) + x.sent &&
            port.writeResults == x.results && port.pending == x.pending
  {
    var rtc: Byte := 0;
    ret := SendCmd(port, PKT_RTC_GET);
    if ret != 0 {
      return;
    }
    CommandAfterSend(old(port.writeResults), port.pending, PKT_RTC_GET, [1, 1, 1, 1, 1, 1]);
    assert [1, 1, 1, 1, 1, 1][1..] == [1, 1, 1, 1, 1] && [1, 1, 1, 1, 1][1..] == [1, 1, 1, 1];
    assert [1, 1, 1, 1][1..] == [1, 1, 1] && [1, 1, 1][1..] == [1, 1];
    assert [1, 1][1..] == [1] && [1][1..] == [];
    ret, rtc := Read8(port, rtc);
    if ret != 0 {
      return;
    }
    ret, rtc := Read8(port, rtc);
    if ret != 0 {
      return;
    }
    ret, rtc := Read8(port, rtc);
    if ret != 0 {
      return;
    }
    ret, rtc := Read8(port, rtc);
    if ret != 0 {
      return;
    }
    ret, rtc := Read8(port, rtc);
    if ret != 0 {
      return;
    }
    ret, rtc := Read8(port, rtc);
    if ret != 0 {
      return;
    }
    return 0;
  }
}
