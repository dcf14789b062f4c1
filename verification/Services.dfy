/** Identifiers, response codes, message limits and the outcomes of file I/O. */
module Services {
  import opened Bytes

  const SID_SESSION_CONTROL: byte := 0x10
  const SID_READ_DID: byte := 0x22
  const SID_READ_ADDRESS: byte := 0x23
  const SID_WRITE_DID: byte := 0x2E
  const SID_WRITE_ADDRESS: byte := 0x3D
  const SID_TESTER_PRESENT: byte := 0x3E
  const SID_NEGATIVE: byte := 0x7F

  const NRC_POSITIVE: byte := 0x00
  const NRC_SERVICE_NOT_SUPPORTED: byte := 0x11
  const NRC_SUBFUNCTION: byte := 0x12
  const NRC_LENGTH: byte := 0x13
  const NRC_CONDITIONS: byte := 0x22
  const NRC_RANGE: byte := 0x31
  const NRC_SESSION: byte := 0x7F

  const INITIAL_SESSION: byte := 0x00
  const DEFAULT_SESSION: byte := 0x01
  const PROGRAMMING_SESSION: byte := 0x02
  const EXTENDED_SESSION: byte := 0x03
  const SAFETY_SESSION: byte := 0x04

  const P2_DEFAULT: uint16 := 50
  const P2_PROGRAMMING: uint16 := 5000
  const P2_STAR: uint16 := 5000

  const SUBFUNCTION_DEFAULT: byte := 0x00
  const SUBFUNCTION_SUPPRESS: byte := 0x80

  const MAX_MESSAGE_SIZE := 4096
  const MAX_DATA_CHUNK_SIZE := 4096
  const MAX_DID := 0xFFFF
  const MAX_DID_ENTRIES := 50

  /** How one open/seek/transfer sequence on the memory file ends: everything
      asked for is transferred, the open, seek or transfer fails outright, or the
      transfer stops after at most `count` bytes. */
  datatype Io = Complete | Fault | Partial(count: nat)

  function Transferred(io: Io, n: nat): (t: nat)
    ensures t <= n && (io == Complete ==> t == n) && (io == Fault ==> t == 0)
    ensures io.Partial? ==> t == Min(io.count, n)
  {
    match io
    case Complete => n
    case Fault => 0
    case Partial(k) => if k < n then k else n
  }
}
