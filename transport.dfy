/**
 * The serial port medtool talks through, reduced to what the protocol sees of
 * it: the bytes write() has accepted, the results the coming write() calls
 * will give, and the input the device has yet to deliver.
 *
 * Input is a queue of chunks. A Data chunk is a burst of bytes that has
 * arrived; one read(fd, buf, count) hands over at most `count` of them and
 * leaves the rest of the burst for the next read(). A Failure chunk is a read()
 * that fails with a negative result. With the port in raw mode a read() blocks
 * until at least one byte is there, so Data chunks are never empty.
 */
module Transport {
  import opened Wire

  datatype Chunk = Data(bytes: seq<Byte>) | Failure(code: int)

  predicate ValidChunk(c: Chunk)
  {
    match c
    case Data(bytes) => |bytes| > 0
    case Failure(code) => code < 0
  }

  predicate ValidInput(pending: seq<Chunk>)
  {
    forall i :: 0 <= i < |pending| ==> ValidChunk(pending[i])
  }

  /** The bytes that arrive before the first failure, in arrival order. */
  function Arrived(pending: seq<Chunk>): seq<Byte>
  {
    if pending == [] then []
    else match pending[0]
      case Data(bytes) => bytes + Arrived(pending[1..])
      case Failure(_) => []
  }

  /** The position of the first failing read() in the queue, or its length if none fails. */
  function FirstFailure(pending: seq<Chunk>): (i: nat)
    ensures i <= |pending|
    ensures i < |pending| ==> pending[i].Failure?
    ensures forall j :: 0 <= j < i ==> pending[j].Data?
  {
    if pending == [] || pending[0].Failure? then 0 else 1 + FirstFailure(pending[1..])
  }

  /** Whether some read() in the queue fails. */
  predicate Interrupted(pending: seq<Chunk>)
  {
    pending != [] && (pending[0].Failure? || Interrupted(pending[1..]))
  }

  /** Some read() fails exactly when the first failure lies within the queue. */
  lemma {:induction false} InterruptedAtFirstFailure(pending: seq<Chunk>)
    ensures Interrupted(pending) <==> FirstFailure(pending) < |pending|
    decreases |pending|
  {
    if pending != [] && pending[0].Data? {
      InterruptedAtFirstFailure(pending[1..]);
    }
  }

  /** Past a leading burst, the queue from its first failure on is the tail's. */
  lemma FirstFailurePastBurst(pending: seq<Chunk>)
    requires pending != [] && pending[0].Data?
    ensures FirstFailure(pending) == 1 + FirstFailure(pending[1..])
    ensures pending[FirstFailure(pending)..] == pending[1..][FirstFailure(pending[1..])..]
  {
  }

  /** One write(): its result, the bytes it took, and the results left for later writes. */
  datatype WriteStep = WriteStep(ret: int, accepted: seq<Byte>, results: seq<int>)

  /**
   * write(fd, buf, |buf|) given the scripted results. A negative result is a
   * failure that takes nothing; n >= 0 takes the first min(n, |buf|) bytes.
   * Once the script is used up, every write() takes its whole buffer.
   */
  function Write1(results: seq<int>, buf: seq<Byte>): (w: WriteStep)
    ensures w.accepted <= buf
    ensures w.ret < 0 ==> w.accepted == []
    ensures w.ret >= 0 ==> w.ret == |w.accepted|
    ensures w.ret == |buf| ==> w.accepted == buf
    ensures results == [] ==> w == WriteStep(|buf|, buf, [])
    ensures results != [] ==> w.results == results[1..]
  {
    if results == [] then WriteStep(|buf|, buf, [])
    else if results[0] < 0 then WriteStep(results[0], [], results[1..])
    else
      var k := if results[0] < |buf| then results[0] else |buf|;
      WriteStep(k, buf[..k], results[1..])
  }

  /** One read(): its result, the bytes it delivered, and the input left. */
  datatype ReadStep = ReadStep(ret: int, got: seq<Byte>, rest: seq<Chunk>)

  /** read(fd, buf, count) for count > 0 with input waiting. */
  function Read1(pending: seq<Chunk>, count: nat): (s: ReadStep)
    requires pending != [] && count > 0
    ensures pending[0].Failure? ==> s == ReadStep(pending[0].code, [], pending[1..])
    ensures pending[0].Data? ==> 0 <= s.ret == |s.got| <= count && s.got + Arrived(s.rest) == Arrived(pending)
    ensures pending[0].Data? ==>
              (|s.got| == |pending[0].bytes| && s.rest == pending[1..]) ||
              (|s.got| == count < |pending[0].bytes| && s.rest == [Data(pending[0].bytes[count..])] + pending[1..])
    ensures Interrupted(s.rest) ==> Interrupted(pending)
  {
    match pending[0]
    case Failure(code) => ReadStep(code, [], pending[1..])
    case Data(bytes) =>
      if |bytes| <= count then ReadStep(|bytes|, bytes, pending[1..])
      else
        var rest := [Data(bytes[count..])] + pending[1..];
        assert rest[1..] == pending[1..];
        assert bytes[..count] + bytes[count..] == bytes;
        ReadStep(count, bytes[..count], rest)
  }

  /**
   * What readn collects when it wants `n` bytes: it calls read() for the
   * bytes still missing until all have arrived (Got) or one read() fails
   * (Failed, with that read()'s result). Starved: the input ends first, where
   * the real read() would block for ever.
   */
  datatype Collected = Got(data: seq<Byte>, rest: seq<Chunk>) | Failed(code: int, rest: seq<Chunk>) | Starved

  function Prepend(d: seq<Byte>, c: Collected): Collected
  {
    if c.Got? then Got(d + c.data, c.rest) else c
  }

  function ReadN(pending: seq<Chunk>, n: nat): (c: Collected)
    ensures c.Got? ==> |c.data| == n
    decreases n, |pending|
  {
    if n == 0 then Got([], pending)
    else if pending == [] then Starved
    else if pending[0].Failure? then Failed(pending[0].code, pending[1..])
    else
      var s := Read1(pending, n);
      Prepend(s.got, ReadN(s.rest, n - |s.got|))
  }

  /** The device answers a request for `n` bytes: readn(n) does not block for ever. */
  predicate Answers(pending: seq<Chunk>, n: nat)
  {
    !ReadN(pending, n).Starved?
  }

  /**
   * What readn(n) does, in terms of the input stream: it succeeds exactly when
   * `n` bytes arrive before any failure, and then delivers the first `n` of
   * them and leaves the others unread, the first failing read() and all behind
   * it still queued; it fails exactly when a failure comes before the n-th
   * byte, and then returns that read()'s result and leaves what follows it.
   */
  lemma {:induction false} ReadNMeaning(pending: seq<Chunk>, n: nat)
    ensures ReadN(pending, n).Got? <==> |Arrived(pending)| >= n
    ensures ReadN(pending, n).Got? ==>
              |ReadN(pending, n).data| == n &&
              ReadN(pending, n).data == Arrived(pending)[..n] &&
              Arrived(ReadN(pending, n).rest) == Arrived(pending)[n..]
    ensures ReadN(pending, n).Got? ==>
              var rest := ReadN(pending, n).rest;
              rest[FirstFailure(rest)..] == pending[FirstFailure(pending)..]
    ensures ReadN(pending, n).Failed? <==> |Arrived(pending)| < n && Interrupted(pending)
    ensures ReadN(pending, n).Failed? ==>
              FirstFailure(pending) < |pending| &&
              ReadN(pending, n) == Failed(pending[FirstFailure(pending)].code, pending[FirstFailure(pending) + 1..])
    ensures Answers(pending, n) <==> |Arrived(pending)| >= n || Interrupted(pending)
  {
    ReadNArrived(pending, n);
    ReadNKeepsFailures(pending, n);
    ReadNFailure(pending, n);
  }

  /** readn(n) in terms of the bytes that arrive before the first failure. */
  lemma {:induction false} ReadNArrived(pending: seq<Chunk>, n: nat)
    ensures ReadN(pending, n).Got? <==> |Arrived(pending)| >= n
    ensures ReadN(pending, n).Got? ==>
              |ReadN(pending, n).data| == n &&
              ReadN(pending, n).data == Arrived(pending)[..n] &&
              Arrived(ReadN(pending, n).rest) == Arrived(pending)[n..]
    ensures ReadN(pending, n).Failed? <==> |Arrived(pending)| < n && Interrupted(pending)
    ensures Answers(pending, n) <==> |Arrived(pending)| >= n || Interrupted(pending)
    decreases n, |pending|
  {
    if n == 0 || pending == [] {
    } else {
      var s := Read1(pending, n);
      if pending[0].Data? {
        ReadNArrived(s.rest, n - |s.got|);
        var c := ReadN(s.rest, n - |s.got|);
        if c.Got? {
          calc {
            Arrived(pending)[..n];
            (s.got + Arrived(s.rest))[..n];
            { assert Arrived(s.rest)[..n - |s.got|] == c.data; }
            s.got + c.data;
          }
          assert Arrived(pending)[n..] == Arrived(s.rest)[n - |s.got|..];
        }
        assert Interrupted(s.rest) <==> Interrupted(pending);
      }
    }
  }

  /** A failing readn returns the first failing read()'s result and leaves the chunks after it. */
  lemma {:induction false} ReadNFailure(pending: seq<Chunk>, n: nat)
    ensures ReadN(pending, n).Failed? ==>
              FirstFailure(pending) < |pending| &&
              ReadN(pending, n) == Failed(pending[FirstFailure(pending)].code, pending[FirstFailure(pending) + 1..])
    decreases n, |pending|
  {
    if n > 0 && pending != [] && pending[0].Data? {
      var s := Read1(pending, n);
      ReadNFailure(s.rest, n - |s.got|);
      if ReadN(s.rest, n - |s.got|).Failed? {
        FailureAfterBurst(pending, n);
      }
    }
  }

  /**
   * A readn that succeeds reads nothing at or after the first failing read():
   * that failure and every chunk behind it are still queued.
   */
  lemma {:induction false} ReadNKeepsFailures(pending: seq<Chunk>, n: nat)
    ensures ReadN(pending, n).Got? ==>
              var rest := ReadN(pending, n).rest;
              rest[FirstFailure(rest)..] == pending[FirstFailure(pending)..]
    decreases n, |pending|
  {
    if n > 0 && pending != [] && pending[0].Data? {
      var s := Read1(pending, n);
      ReadNKeepsFailures(s.rest, n - |s.got|);
      FirstFailurePastBurst(pending);
      if s.rest != pending[1..] {
        assert s.rest[0].Data? && s.rest[1..] == pending[1..];
        FirstFailurePastBurst(s.rest);
      }
    }
  }

  /**
   * A readn that fails past a first burst stopped at the first failing read()
   * after it: the burst was used up, and the failure is the tail's first.
   */
  lemma FailureAfterBurst(pending: seq<Chunk>, n: nat)
    requires pending != [] && pending[0].Data? && n > 0
    requires var s := Read1(pending, n);
             var c := ReadN(s.rest, n - |s.got|);
             c.Failed? && FirstFailure(s.rest) < |s.rest| &&
             c == Failed(s.rest[FirstFailure(s.rest)].code, s.rest[FirstFailure(s.rest) + 1..])
    ensures var s := Read1(pending, n);
            FirstFailure(pending) < |pending| &&
            ReadN(s.rest, n - |s.got|) == Failed(pending[FirstFailure(pending)].code, pending[FirstFailure(pending) + 1..])
  {
    var s := Read1(pending, n);
    assert s.rest == pending[1..];
    var k := FirstFailure(pending[1..]);
    assert FirstFailure(pending) == 1 + k;
    assert pending[1..][k + 1..] == pending[k + 2..];
  }

  /** Continue a collection of bytes by collecting `b` more from what it left. */
  function Then(c: Collected, b: nat): Collected
  {
    if c.Got? then Prepend(c.data, ReadN(c.rest, b)) else c
  }

  /** ReadN when the input starts with a burst of bytes. */
  lemma ReadNFromBurst(pending: seq<Chunk>, n: nat)
    requires pending != [] && pending[0].Data? && n > 0
    ensures var bytes := pending[0].bytes;
            ReadN(pending, n) ==
              if |bytes| <= n then Prepend(bytes, ReadN(pending[1..], n - |bytes|))
              else Got(bytes[..n], [Data(bytes[n..])] + pending[1..])
  {
    var bytes := pending[0].bytes;
    if |bytes| > n {
      var rest := [Data(bytes[n..])] + pending[1..];
      assert ReadN(rest, 0) == Got([], rest);
      assert bytes[..n] + [] == bytes[..n];
    }
  }

  /**
   * Asking for a + b bytes in one readn is the same as asking for `a` bytes
   * and then, if that succeeded, for `b` more: same bytes, same failure, same
   * input left over. This is why the get_* functions' field-by-field reads
   * consume the reply exactly as one read of the whole reply would.
   */
  lemma {:induction false} ReadNSplit(pending: seq<Chunk>, a: nat, b: nat)
    ensures ReadN(pending, a + b) == Then(ReadN(pending, a), b)
    decreases a, |pending|
  {
    if a == 0 {
      assert ReadN(pending, a + b) == Prepend([], ReadN(pending, b));
    } else if pending == [] || pending[0].Failure? {
    } else {
      var bytes := pending[0].bytes;
      var tail := pending[1..];
      ReadNFromBurst(pending, a);
      ReadNFromBurst(pending, a + b);
      if |bytes| <= a {
        ReadNSplit(tail, a - |bytes|, b);
        assert (a - |bytes|) + b == a + b - |bytes|;
        AppendPrepend(bytes, ReadN(tail, a - |bytes|), b);
      } else if b == 0 {
        var rest := [Data(bytes[a..])] + tail;
        assert ReadN(rest, 0) == Got([], rest);
        assert bytes[..a] + [] == bytes[..a];
      } else {
        SplitInsideBurst(pending, a, b);
      }
    }
  }

  /** ReadNSplit when the first `a` bytes come from the first burst and leave some of it. */
  lemma SplitInsideBurst(pending: seq<Chunk>, a: nat, b: nat)
    requires pending != [] && pending[0].Data? && 0 < a < |pending[0].bytes| && b > 0
    ensures ReadN(pending, a + b) == Then(ReadN(pending, a), b)
  {
    var bytes := pending[0].bytes;
    var tail := pending[1..];
    var rest := [Data(bytes[a..])] + tail;
    assert rest[1..] == tail;
    ReadNFromBurst(pending, a);
    assert ReadN(pending, a) == Got(bytes[..a], rest);
    if |bytes| <= a + b {
      BurstEndsWithin(bytes, tail, a, b);
    } else {
      BurstOutlasts(bytes, tail, a, b);
    }
  }

  /** The second request finishes the burst the first one started. */
  lemma BurstEndsWithin(bytes: seq<Byte>, tail: seq<Chunk>, a: nat, b: nat)
    requires 0 < a < |bytes| <= a + b
    ensures var rest := [Data(bytes[a..])] + tail;
            ReadN([Data(bytes)] + tail, a + b) == Prepend(bytes[..a], ReadN(rest, b))
  {
    var pending := [Data(bytes)] + tail;
    var rest := [Data(bytes[a..])] + tail;
    assert pending[1..] == tail && rest[1..] == tail;
    ReadNFromBurst(pending, a + b);
    ReadNFromBurst(rest, b);
    PrependPrepend(bytes[..a], bytes[a..], ReadN(tail, b - |bytes[a..]|));
    assert bytes[..a] + bytes[a..] == bytes;
    assert b - |bytes[a..]| == a + b - |bytes|;
  }

  /** Both requests are met from one burst, with bytes to spare. */
  lemma BurstOutlasts(bytes: seq<Byte>, tail: seq<Chunk>, a: nat, b: nat)
    requires 0 < a && 0 < b && a + b < |bytes|
    ensures var rest := [Data(bytes[a..])] + tail;
            ReadN([Data(bytes)] + tail, a + b) == Prepend(bytes[..a], ReadN(rest, b))
  {
    var pending := [Data(bytes)] + tail;
    var rest := [Data(bytes[a..])] + tail;
    assert pending[1..] == tail && rest[1..] == tail;
    ReadNFromBurst(pending, a + b);
    ReadNFromBurst(rest, b);
    assert bytes[a..][..b] == bytes[a..a + b];
    assert bytes[a..][b..] == bytes[a + b..];
    assert bytes[..a] + bytes[a..a + b] == bytes[..a + b];
  }

  /** The sum of a list of read sizes. */
  function Total(sizes: seq<nat>): nat
  {
    if sizes == [] then 0 else sizes[0] + Total(sizes[1..])
  }

  /**
   * One readn per entry of `sizes`, in order, stopping at the first that
   * fails: the bytes of the reads that succeeded are collected in order.
   */
  function Reads(pending: seq<Chunk>, sizes: seq<nat>): (c: Collected)
    ensures c.Got? ==> |c.data| == Total(sizes)
    decreases |sizes|
  {
    if sizes == [] then Got([], pending)
    else
      var c := ReadN(pending, sizes[0]);
      if c.Got? then Prepend(c.data, Reads(c.rest, sizes[1..])) else c
  }

  /**
   * Reading a reply field by field sees exactly what one readn of the whole
   * reply would: the same bytes, the same failure, the same input left over.
   */
  lemma {:induction false} ReadsAsOne(pending: seq<Chunk>, sizes: seq<nat>)
    ensures Reads(pending, sizes) == ReadN(pending, Total(sizes))
    decreases |sizes|
  {
    if sizes != [] {
      var a, b := sizes[0], Total(sizes[1..]);
      assert Total(sizes) == a + b;
      ReadNSplit(pending, a, b);
      var c := ReadN(pending, a);
      if c.Got? {
        ReadsAsOne(c.rest, sizes[1..]);
        assert Reads(pending, sizes) == Prepend(c.data, Reads(c.rest, sizes[1..]));
      } else {
        assert Reads(pending, sizes) == c;
      }
    }
  }

  lemma PrependPrepend(x: seq<Byte>, y: seq<Byte>, c: Collected)
    ensures Prepend(x, Prepend(y, c)) == Prepend(x + y, c)
  {
    if c.Got? {
      assert x + (y + c.data) == (x + y) + c.data;
    }
  }

  /** Prepending bytes commutes with collecting more afterwards. */
  lemma AppendPrepend(d: seq<Byte>, c: Collected, b: nat)
    ensures Then(Prepend(d, c), b) == Prepend(d, Then(c, b))
  {
    if c.Got? {
      var e := ReadN(c.rest, b);
      if e.Got? {
        assert (d + c.data) + e.data == d + (c.data + e.data);
      }
    }
  }

  /**
   * The serial port. `sent` holds every byte write() has accepted, in order;
   * `writeResults` the results the next write() calls return (see Write1);
   * `pending` the input the device has yet to deliver. Valid() constrains
   * only `pending`, so the write side, which promises to leave `pending` as
   * it was, keeps it without stating it.
   */
  class Port {
    var sent: seq<Byte>
    var writeResults: seq<int>
    var pending: seq<Chunk>

    ghost predicate Valid()
      reads this
    {
      ValidInput(pending)
    }

    constructor (writeResults: seq<int>, pending: seq<Chunk>)
      requires ValidInput(pending)
      ensures Valid()
      ensures this.sent == [] && this.writeResults == writeResults && this.pending == pending
    {
      this.sent := [];
      this.writeResults := writeResults;
      this.pending := pending;
    }

    /** The write() system call. */
    method Write(buf: seq<Byte>) returns (ret: int)
      modifies this
      ensures var w := Write1(old(writeResults), buf);
              ret == w.ret && sent == old(sent) + w.accepted && writeResults == w.results
      ensures pending == old(pending)
    {
      var w := Write1(writeResults, buf);
      ret := w.ret;
      sent := sent + w.accepted;
      writeResults := w.results;
    }

    /** The read() system call, filling dst[off..off + count) from the front. */
    method Read(dst: array<Byte>, off: nat, count: nat) returns (ret: int)
      requires Valid() && pending != [] && count > 0 && off + count <= dst.Length
      modifies this, dst
      ensures Valid()
      ensures var s := Read1(old(pending), count);
              ret == s.ret && pending == s.rest &&
              dst[..off] == old(dst[..off]) &&
              dst[off..off + |s.got|] == s.got &&
              dst[off + |s.got|..] == old(dst[off + |s.got|..])
      ensures sent == old(sent) && writeResults == old(writeResults)
    {
      var s := Read1(pending, count);
      ret := s.ret;
      forall j | off <= j < off + |s.got| {
        dst[j] := s.got[j - off];
      }
      assert ValidChunk(pending[0]);
      pending := s.rest;
    }
  }
}
