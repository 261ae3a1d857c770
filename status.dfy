/**
 * The two status replies and how medtool judges them: the 16-bit word of
 * CMD_STATUS against STATUS_MASK/STATUS_CHECK, and the 32-bit word of
 * CMD_STATUS2 split by the status2_* macros into a check byte, a protocol id
 * and a device id. The source prints its verdicts; here they are values.
 */
module Status {
  import opened Wire

  const STATUS_MASK: bv16 := 0xff00
  const STATUS_CHECK: bv16 := 0xa500

  const STATUS2_CHECK: Byte := 0x5a
  const PROTOCOL_ID: Byte := 0x05
  const DEVID_MEGAPRO: Byte := 0x18
  const DEVID_MEGACORE: Byte := 0x25

  /** What get_status learns: the word and whether it passed the mask check. */
  datatype StatusReport = StatusReport(word: bv16, trusted: bool)

  datatype DeviceKind = Core | Pro | UnknownDevice

  /** What get_status2 learns: the word, its two checks and the device variant. */
  datatype Status2Report = Status2Report(word: bv32, checkOk: bool, protocolOk: bool, device: DeviceKind)

  /** get_status's test: the reply is good when its top byte equals that of STATUS_CHECK. */
  predicate StatusTrusted(status: bv16): (b: bool)
    ensures b <==> 0xA500 <= status <= 0xA5FF
  {
    status & STATUS_MASK == STATUS_CHECK
  }

  /** The status check looks only at the first byte on the wire, which must be 0xA5. */
  lemma StatusTrustedIff(status: bv16)
    ensures StatusTrusted(status) <==> BigEndian16(status)[0] == 0xA5
  {
  }

  function ClassifyStatus(status: bv16): (r: StatusReport)
    ensures r.word == status
    ensures r.trusted <==> BigEndian16(status)[0] == 0xA5
  {
    StatusTrustedIff(status);
    StatusReport(status, StatusTrusted(status))
  }

  /** status2_check: bits 31-24, the first byte on the wire. */
  function Status2Check(s: bv32): (b: Byte)
    ensures b == BigEndian32(s)[0]
  {
    ((s >> 24) & 0xff) as Byte
  }

  /** status2_protocolid: bits 23-16, the second byte on the wire. */
  function Status2ProtocolId(s: bv32): (b: Byte)
    ensures b == BigEndian32(s)[1]
  {
    ((s >> 16) & 0xff) as Byte
  }

  /** status2_devid: bits 15-8, the third byte on the wire. */
  function Status2DevId(s: bv32): (b: Byte)
    ensures b == BigEndian32(s)[2]
  {
    ((s >> 8) & 0xff) as Byte
  }

  /** The three fields and the unused low byte make up the whole word. */
  lemma Status2Fields(s: bv32)
    ensures s == FromBigEndian32([Status2Check(s), Status2ProtocolId(s), Status2DevId(s), (s & 0xff) as Byte])
  {
  }

  /** The switch on the device id: MEGACORE, MEGAPRO, or anything else. */
  function DeviceKindOf(devid: Byte): (k: DeviceKind)
    ensures k == Core <==> devid == 0x25
    ensures k == Pro <==> devid == 0x18
  {
    if devid == DEVID_MEGACORE then Core
    else if devid == DEVID_MEGAPRO then Pro
    else UnknownDevice
  }

  /** The three verdicts get_status2 reaches for a reply word; none of them is fatal. */
  function ClassifyStatus2(s: bv32): (r: Status2Report)
    ensures r.word == s
    ensures r.checkOk <==> BigEndian32(s)[0] == 0x5A
    ensures r.protocolOk <==> BigEndian32(s)[1] == 0x05
    ensures r.device == DeviceKindOf(BigEndian32(s)[2])
  {
    Status2Report(s, Status2Check(s) == STATUS2_CHECK, Status2ProtocolId(s) == PROTOCOL_ID,
                  DeviceKindOf(Status2DevId(s)))
  }

  /** The device id decides the variant whatever the check byte and protocol id say. */
  lemma DeviceIndependentOfChecks(s: bv32, t: bv32)
    requires Status2DevId(s) == Status2DevId(t)
    ensures ClassifyStatus2(s).device == ClassifyStatus2(t).device
  {
  }

  /** Sample replies: two known devices, an unknown one, and an all-zero word. */
  lemma Status2Examples()
    ensures ClassifyStatus2(0x5A05_1800) == Status2Report(0x5A05_1800, true, true, Pro)
    ensures ClassifyStatus2(0x5A05_2500) == Status2Report(0x5A05_2500, true, true, Core)
    ensures ClassifyStatus2(0x5A05_FF00) == Status2Report(0x5A05_FF00, true, true, UnknownDevice)
    ensures ClassifyStatus2(0) == Status2Report(0, false, false, UnknownDevice)
    ensures StatusTrusted(0xA500) && StatusTrusted(0xA5FF) && !StatusTrusted(0x1234)
  {
  }
}
