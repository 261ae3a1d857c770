# medtool protocol core in Dafny

medtool is a small host tool for a Mega EverDrive cartridge. It talks to the cartridge over a
USB serial port. Every request begins with a four-byte command header: the preamble `'+'`, its
bitwise complement, an opcode and the opcode's complement. The tool then writes and reads
fixed-width big-endian integers on the serial port.

This project models the protocol layer of `medtool.c`:

- the header constants and `DEFINEPKT`;
- `writen`, `write8/16/32` and `send_cmd`;
- `readn` and `read8/16/32`;
- the queries `get_status`, `get_status2`, `get_vdc` and `get_rtc`;
- the FIFO transfers `read_fifo` and `write_fifo`.

The files are:

- `wire.dfy`: big-endian 16- and 32-bit encodings.
- `packet.dfy`: the header and the seven command headers.
- `status.dfy`: how the two status replies are judged.
- `transport.dfy`: the serial port as a class.
- `protocol.dfy`: the request and response functions.
- `fifo.dfy`: the FIFO transfers.

The serial port is a class `Port` with three fields:

- `sent`: every byte write() has accepted so far.
- `writeResults`: a script of what the next write() calls return. A negative entry is a failure. An entry n ≥ 0 accepts the first min(n, length) bytes. With an empty script every write() takes its whole buffer.
- `pending`: the input still to come, as bursts of bytes (`Data`) and read() failures (`Failure`).

read() copies at most the requested count from the first burst into the caller's array at the
given offset. The rest of that burst stays queued.

A read in raw mode blocks until at least one byte arrives. So the model requires that the device
answers: `Answers(pending, n)` says a readn of n bytes ends, either with n bytes or with a
failure. The callers that read demand this, and the model does not describe a device that stays
silent.

Each C function's `int` result is modelled with the same values: 0 for success, -1 for a failed
command, and the read() result for readn. The C `*result` out-pointer is left untouched on
failure; it is modelled as a `prior` argument that comes back unchanged. The source prints its
verdicts on status replies; here the model returns them as values (`StatusReport`,
`Status2Report`).

The query functions are specified by `Protocol.Command`:

- the header goes out;
- if write() took all four bytes, one readn per reply field follows, stopping at the first that fails;
- the result is 0 exactly when the whole reply arrived.

`Transport.ReadsAsOne` proves that reading a reply field by field consumes the input exactly as
one readn of the whole reply would. `Transport.ReadNMeaning` describes that single readn in terms
of the bytes that arrived before the first failure.

## Model

| member | source | states |
|---|---|---|
| Packet.DefinePkt | medtool.c:44 | the header is well formed (each complement byte is the NOT of its companion), has preamble '+' and carries the given opcode |
| Packet.HeaderBytes | medtool.c:37-42 | the packed header is four bytes in field order, and reading them back gives the same header |
| Packet.HeaderLayout | medtool.c:44 | every DEFINEPKT header is 0x2B 0xD4, the opcode, then the opcode's complement |
| Packet.WellFormedIsDefinePkt | medtool.c:44 | a header passes the complement check exactly when it is DEFINEPKT of its own opcode with preamble '+' |
| Packet.CommandHeaders | medtool.c:10-52 | the bytes of each of the seven headers pkt_status … pkt_status2, and that the seven opcodes differ |
| Packet.OneByteCorruptionDetected | medtool.c:44 | flipping any bits of any one byte of a well-formed header makes it fail the complement check |
| Wire.BigEndian16 | medtool.c:94-102 | write16's two bytes decode back to the value |
| Wire.BigEndian32 | medtool.c:84-92 | write32's four bytes decode back to the value |
| Wire.FromBigEndian16 | medtool.c:181 | be16toh of the two bytes read: the first byte is the high byte of the word, the second the low byte |
| Wire.FromBigEndian32 | medtool.c:165 | be32toh of the four bytes read: the bytes are the word's bytes from most to least significant |
| Wire.FromBigEndian16Inverse | medtool.c:171-184 | any two bytes read16 decodes are exactly the bytes that encode the decoded value |
| Wire.FromBigEndian32Inverse | medtool.c:152-168 | any four bytes read32 decodes are exactly the bytes that encode the decoded value |
| Wire.BigEndian16MostSignificantFirst | medtool.c:98 | the first byte on the wire is zero exactly when the value is below 0x100 |
| Wire.BigEndian32MostSignificantFirst | medtool.c:88 | the 32-bit encoding is the high half's encoding followed by the low half's; leading zero bytes correspond exactly to value ranges |
| Status.StatusTrusted | medtool.c:249 | a status word passes the mask test exactly when it lies in 0xA500 … 0xA5FF |
| Status.StatusTrustedIff | medtool.c:249 | `(status & STATUS_MASK) == STATUS_CHECK` holds exactly when the first status byte on the wire is 0xA5 |
| Status.ClassifyStatus | medtool.c:249 | the report keeps the word and marks it trusted exactly when its first wire byte is 0xA5 |
| Status.Status2Check | medtool.c:22 | status2_check is the first byte of the word on the wire |
| Status.Status2ProtocolId | medtool.c:23 | status2_protocolid is the second byte on the wire |
| Status.Status2DevId | medtool.c:24 | status2_devid is the third byte on the wire |
| Status.Status2Fields | medtool.c:22-24 | the three macro fields and the low byte rebuild the whole word |
| Status.DeviceKindOf | medtool.c:221-231 | Core exactly for 0x25, Pro exactly for 0x18, unknown otherwise |
| Status.ClassifyStatus2 | medtool.c:215-231 | check passed iff byte 0 is 0x5A, protocol passed iff byte 1 is 0x05, device from byte 2 |
| Status.DeviceIndependentOfChecks | medtool.c:215-231 | the device verdict depends on the device id byte only; a failed check never stops it |
| Status.Status2Examples | medtool.c:215-231 | sample replies: 0x5A051800 is a Pro, 0x5A052500 a Core, 0x5A05FF00 unknown, 0 fails both checks |
| Transport.Write1 | medtool.c:79 | a write() result: at most the buffer is accepted, as a prefix; a failure accepts nothing; a non-negative result counts the accepted bytes |
| Transport.Read1 | medtool.c:131 | a read() result: a failure takes nothing; otherwise at most `count` bytes are delivered, in order, from the first burst, and the rest of the burst stays queued |
| Transport.Port.Write | medtool.c:79 | the accepted bytes are appended to `sent` and the script advances; the input is untouched |
| Transport.Port.Read | medtool.c:131 | the bytes land at dst[off..], the rest of dst is untouched, the input advances |
| Transport.ReadN | medtool.c:124-150 | what a readn of n bytes collects from the input; when it succeeds it holds exactly n bytes |
| Transport.Reads | medtool.c:255-317 | reading a reply field by field, stopping at the first failure; when every field arrives it holds exactly the sum of the field sizes |
| Transport.ReadNMeaning | medtool.c:124-150 | readn(n) succeeds iff n bytes arrive before a failure, then delivers the first n and leaves the rest, with the first failing read() and every chunk after it still queued; it fails iff a failure comes first, and then returns that first failing read()'s result and leaves exactly the chunks after it |
| Transport.ReadNArrived | medtool.c:124-150 | readn(n) succeeds iff n bytes arrive before a failure, and then delivers exactly the first n of them; it fails iff a failure comes first; it always ends when either holds |
| Transport.ReadNKeepsFailures | medtool.c:130-143 | a readn that succeeds makes no read() past its n bytes: from the first failing read() on, the input is left exactly as it was |
| Transport.FirstFailure | medtool.c:131-133 | the position of the first read() that fails: every chunk before it is data, and the chunk there, if any, is a failure |
| Transport.InterruptedAtFirstFailure | medtool.c:131-133 | some read() in the input fails exactly when the first failure lies within it |
| Transport.ReadNFailure | medtool.c:131-133 | a readn that fails returns the result of the first read() that fails and consumes nothing after it |
| Transport.ReadNSplit | medtool.c:124-150 | readn(a + b) is readn(a) followed, on success, by readn(b) |
| Transport.ReadsAsOne | medtool.c:255-317 | reading a reply field by field, stopping at the first failure, equals one readn of the whole reply |
| Protocol.Writen | medtool.c:70-82 | one write() of the whole buffer; its result is passed back |
| Protocol.Write32 | medtool.c:84-92 | returns 0 whatever write() does; the big-endian encoding is offered to one write(), and the prefix it accepts is appended to `sent` |
| Protocol.Write16 | medtool.c:94-102 | returns 0 whatever write() does; the big-endian encoding is offered to one write(), and the prefix it accepts is appended to `sent` |
| Protocol.Write8 | medtool.c:104-109 | returns 0 whatever write() does; the byte is offered to one write(), and what it accepts is appended to `sent` |
| Protocol.HeaderGoesOut | medtool.c:115-116 | send_cmd's test: the header went out exactly when write() accepted all four header bytes |
| Protocol.SendCmd | medtool.c:111-122 | 0 exactly when write() took all four header bytes, -1 on a short or failed write |
| Protocol.Readn | medtool.c:124-150 | loops over read(); on success returns howmuch with dst[..howmuch] the bytes read; on a failed read() returns its negative result at once; the input advances as readn(howmuch) says |
| Protocol.Read32 | medtool.c:152-168 | 0 and the decoded big-endian word when all four bytes came, else -1 with the target unchanged |
| Protocol.Read16 | medtool.c:171-184 | 0 and the decoded big-endian word when both bytes came, else -1 with the target unchanged |
| Protocol.Read8 | medtool.c:187-200 | 0 and the byte when it came, else -1 with the target unchanged |
| Protocol.Command | medtool.c:202-317 | a query succeeds iff the header went out whole and the whole reply arrived; then the reply is the first bytes to arrive and the rest stays queued; a lost header reads nothing; a failed read ends the query with the input just past the first failing read(); a successful query leaves the first failing read() and all behind it queued |
| Protocol.CommandAfterSend | medtool.c:202-317 | once the header is out, the query's result, reply and leftover input are those of reading its fields in turn |
| Protocol.GetStatus2 | medtool.c:202-234 | the query with one 32-bit field; on success the report classifies the word, and a bad check is not an error |
| Protocol.GetStatus | medtool.c:236-253 | the query with one 16-bit field; on success the report classifies the word, and a bad status is not an error |
| Protocol.GetVdc | medtool.c:255-281 | the query with four 16-bit fields, stopping at the first failed read |
| Protocol.GetRtc | medtool.c:283-317 | the query with six one-byte fields, stopping at the first failed read |
| Fifo.Emit | medtool.c:341-348 | a run of writen calls, each against what the previous left of the write() script; it consumes at most the script it is given |
| Fifo.WriteFifoRequests | medtool.c:342-348 | write_fifo's writes: the memory-write header, the FIFO address, howmuch as a 32-bit length, a zero byte, then one single-byte write per payload byte, in order |
| Fifo.ReadFifoRequests | medtool.c:325-328 | read_fifo's writes: the memory-read header, the FIFO address, the length 1 and a zero byte |
| Fifo.EmitAppend | medtool.c:335-351 | consecutive writes compose: the second batch runs against what the first left of the write() script |
| Fifo.EmitWholeWrites | medtool.c:335-351 | when write() takes every buffer whole, the wire carries the buffers back to back |
| Fifo.FlattenSingles | medtool.c:347-348 | writing bytes one write8 at a time sends exactly those bytes |
| Fifo.WriteFifo | medtool.c:335-351 | header, address, length, zero byte, then each payload byte, each a writen against the script whatever the previous ones did; always returns 0 |
| Fifo.ReadFifo | medtool.c:319-333 | header, address, length 1, zero byte, then one read8 of one byte; always returns 0 |
| Fifo.WriteFifoWire | medtool.c:335-351 | on a cooperative port the wire carries 2B D4 1A E5 01 81 00 00, howmuch big-endian, 00, then the payload: 13 + howmuch bytes, with the length field matching the payload |
| Fifo.ReadFifoWire | medtool.c:319-333 | on a cooperative port the wire carries 2B D4 19 E6 01 81 00 00 00 00 00 01 00, whatever howmuch is |
| Fifo.WriteFifoAfterLostHeader | medtool.c:341-348 | when write() refuses the header, the descriptor and payload still go out, because send_cmd's result is ignored |

## Left out

- main: opening the serial port, the termios raw-mode setup and the order of calls are not modelled; they are I/O set-up.
- hexdump and the DEBUG printf calls in writen and readn are left out because they only log. So are the error messages of send_cmd (medtool.c:117) and read32 (medtool.c:161). Every status verdict is returned as a value instead of printed: get_status's bad-reply message and get_status2's three verdicts (check, protocol id, device kind).
- A device that never answers is not modelled. Every reading operation requires `Answers`, because the real read() would block for ever.
- A read() that returns 0 bytes is not modelled (each `Data` burst is non-empty). On such a result readn's loop would spin for ever without progress.
- Protocol.Readn: the uninitialised `ret` that readn's DEBUG printf uses when howmuch is 0 is not modelled, since it only affects logging.
- The size_t → int and size_t → uint32 conversions are not modelled. They only matter beyond 2^31 bytes.
- Fifo.WriteFifo requires howmuch < 2^31. Beyond that, the int loop counter `i` would overflow before reaching `len`, which is undefined behaviour in C.
- Protocol.GetVdc and Protocol.GetRtc do not return the readings. The source reads each into one local variable and drops it.
- Fifo.ReadFifo likewise drops the byte it reads.
- The CMD_RTC_SET header is modelled, but no function that sends it is, because the source has none. The same holds for general memory reads or writes at other addresses, and for retries.
- host/device byte order (htobe/betoh) is replaced by explicit byte sequences; no host order appears in the model.

The code departs from a natural reading of the protocol in several places. The model follows the
code:

- No write is retried or looped: writen makes one write() call. Only send_cmd looks at its result (medtool.c:116); write8/16/32 ignore it. A short write leaves a partial field on the wire and the command goes on.
- read_fifo declares a transfer length of 1 and reads one byte, whatever `howmuch` asks for.
- write_fifo and read_fifo ignore every result, including send_cmd's, and return 0.
- get_vdc keeps none of its four readings.
