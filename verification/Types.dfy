/** The constants and value types of mini_snmpd.h. */
module Types {
  const MAX_NR_OIDS := 16
  const MAX_NR_SUBIDS := 16
  const MAX_NR_VALUES := 128
  const MAX_PACKET_SIZE := 2048
  const MAX_STRING_SIZE := 64

  type Byte = b: int | 0 <= b < 0x100
  type UInt32 = u: int | 0 <= u < 0x1_0000_0000
  type Int32 = v: int | -0x8000_0000 <= v < 0x8000_0000

  const INTEGER: Byte := 0x02
  const OCTET_STRING: Byte := 0x04
  const NULL: Byte := 0x05
  const OID: Byte := 0x06
  const SEQUENCE: Byte := 0x30
  const COUNTER: Byte := 0x41
  const GAUGE: Byte := 0x42
  const TIME_TICKS: Byte := 0x43
  const SNMP_GET: Byte := 0xA0
  const SNMP_GETNEXT: Byte := 0xA1
  const SNMP_RESPONSE: Byte := 0xA2
  const SNMP_SET: Byte := 0xA3
  const SNMP_GETBULK: Byte := 0xA5

  /** The element types the decoder accepts; SNMP_REPORT (0xA8) is not among them. */
  predicate SupportedTag(b: Byte) {
    b in {0x01, 0x02, 0x03, 0x04, 0x05, 0x06, 0x30, 0x41, 0x42, 0x43, 0x80, 0x81, 0x82,
          0xA0, 0xA1, 0xA2, 0xA3, 0xA5, 0xA6, 0xA7}
  }

  const SNMP_VERSION_1: Int32 := 0
  const SNMP_VERSION_2C: Int32 := 1

  const STATUS_OK: Int32 := 0
  const STATUS_NO_SUCH_NAME: Int32 := 2
  const STATUS_GEN_ERR: Int32 := 5
  const STATUS_NO_ACCESS: Int32 := 6

  datatype Option<+T> = None | Some(value: T)

  /** `encodedLength` is the size the OID is given on the wire, header included; nothing
      forces it to be the size the encoder will really write. */
  datatype Oid = Oid(subids: seq<UInt32>, encodedLength: int) {
    predicate Valid() {
      2 <= |subids| <= MAX_NR_SUBIDS
    }
  }

  /** `buffer` is a pointer: copying a `Data` shares the bytes. */
  datatype Data = Data(buffer: array<Byte>, maxLength: int, encodedLength: int)

  datatype Value = Value(oid: Oid, data: Data)
}
