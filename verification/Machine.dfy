/** The pure diagnostic machine: a session and an address-to-byte map, stepped by
    one request and one file outcome at a time. The imperative server is proved
    to refine it; every run theorem is about it. */
module Machine {
  import opened Bytes
  import opened Services
  import opened Memory
  import opened Config

  datatype State = State(session: byte, mem: Mem)

  datatype Event = Event(req: seq<byte>, io: Io)

  datatype Command =
    | SetSession(session: byte)
    | ReadDid(did: uint16, address: uint32, size: uint32)
    | ReadAddress(address: uint32, size: uint32)
    | WriteDid(did: uint16, address: uint32, data: seq<byte>)
    | WriteAddress(address: uint32, data: seq<byte>)
    | KeepAlive(suppress: bool)
  {
    predicate Writes() {
      WriteDid? || WriteAddress?
    }

    predicate Reads() {
      ReadDid? || ReadAddress?
    }
  }

  datatype Verdict = Accept(cmd: Command) | Reject(sid: byte, nrc: byte) | Ignore

  datatype Reply =
    | NoReply
    | Negative(sid: byte, nrc: byte)
    | SessionReply(session: byte, p2: uint16, p2star: uint16)
    | DidData(did: uint16, data: seq<byte>)
    | AddressData(data: seq<byte>)
    | DidWritten(did: uint16)
    | AddressWritten
    | Alive

  // ---- Decoding requests

  datatype Target = Target(address: uint32, size: uint32, offset: nat) | Malformed(nrc: byte)

  /** The address and size fields whose widths the two nibbles of byte 1 give:
      the high nibble is the address width, the low one the size width. */
  function DecodeTarget(req: seq<byte>): (t: Target)
    requires 2 <= |req|
    ensures t.Target? ==> 4 <= t.offset <= 10 && t.offset <= |req|
  {
    var aw, sw := req[1] / 16, req[1] % 16;
    if aw == 0 || 4 < aw || sw == 0 || 4 < sw then Malformed(NRC_RANGE)
    else if |req| < 2 + aw + sw then Malformed(NRC_LENGTH)
    else
      var address, size := req[2..2 + aw], req[2 + aw..2 + aw + sw];
      FieldFits(address);
      FieldFits(size);
      Target(BigEndian(address), BigEndian(size), 2 + aw + sw)
  }

  function DecodeSessionControl(req: seq<byte>): Verdict {
    if |req| != 2 then Reject(SID_SESSION_CONTROL, NRC_LENGTH)
    else if DEFAULT_SESSION <= req[1] <= SAFETY_SESSION then Accept(SetSession(req[1]))
    else Reject(SID_SESSION_CONTROL, NRC_SUBFUNCTION)
  }

  function DecodeTesterPresent(req: seq<byte>): Verdict {
    if |req| != 2 then Reject(SID_TESTER_PRESENT, NRC_LENGTH)
    else if req[1] == SUBFUNCTION_DEFAULT || req[1] == SUBFUNCTION_SUPPRESS
    then Accept(KeepAlive(req[1] == SUBFUNCTION_SUPPRESS))
    else Reject(SID_TESTER_PRESENT, NRC_SUBFUNCTION)
  }

  function DecodeReadAddress(cfg: Config, req: seq<byte>): Verdict {
    if |req| < 2 then Reject(SID_READ_ADDRESS, NRC_LENGTH)
    else match DecodeTarget(req)
      case Malformed(nrc) => Reject(SID_READ_ADDRESS, nrc)
      case Target(a, n, _) =>
        if InRange32(cfg, a, n) then Accept(ReadAddress(a, n))
        else Reject(SID_READ_ADDRESS, NRC_RANGE)
  }

  /** The data-length test is the 32-bit one, `offset + size` taken modulo 2^32. */
  function DecodeWriteAddress(cfg: Config, session: byte, req: seq<byte>): Verdict {
    if |req| < 2 then Reject(SID_WRITE_ADDRESS, NRC_LENGTH)
    else if session != EXTENDED_SESSION then Reject(SID_WRITE_ADDRESS, NRC_SESSION)
    else match DecodeTarget(req)
      case Malformed(nrc) => Reject(SID_WRITE_ADDRESS, nrc)
      case Target(a, n, offset) =>
        if !InRange32(cfg, a, n) then Reject(SID_WRITE_ADDRESS, NRC_RANGE)
        else if |req| < (offset + n) % U32 then Reject(SID_WRITE_ADDRESS, NRC_LENGTH)
        else Accept(WriteAddress(a, TakePad(req[offset..], n)))
  }

  function DidOf(req: seq<byte>): uint16
    requires 3 <= |req|
  {
    req[1] as int * 256 + req[2] as int
  }

  function DecodeReadDid(cfg: Config, req: seq<byte>): Verdict {
    if |req| < 3 then Reject(SID_READ_DID, NRC_LENGTH)
    else
      var slot := Lookup(cfg.dids, DidOf(req));
      if slot.valid && InRange32(cfg, slot.address, slot.size)
      then Accept(ReadDid(DidOf(req), slot.address, slot.size))
      else Reject(SID_READ_DID, NRC_RANGE)
  }

  /** A request shorter than the identifier's size writes zero padding. */
  function DecodeWriteDid(cfg: Config, session: byte, req: seq<byte>): Verdict {
    if |req| < 3 then Reject(SID_WRITE_DID, NRC_LENGTH)
    else if session != EXTENDED_SESSION then Reject(SID_WRITE_DID, NRC_SESSION)
    else
      var slot := Lookup(cfg.dids, DidOf(req));
      if slot.valid && InRange32(cfg, slot.address, slot.size)
      then Accept(WriteDid(DidOf(req), slot.address, TakePad(req[3..], slot.size)))
      else Reject(SID_WRITE_DID, NRC_RANGE)
  }

  function Decode(cfg: Config, session: byte, req: seq<byte>): Verdict {
    if req == [] then Ignore
    else if req[0] == SID_SESSION_CONTROL then DecodeSessionControl(req)
    else if req[0] == SID_READ_DID then DecodeReadDid(cfg, req)
    else if req[0] == SID_READ_ADDRESS then DecodeReadAddress(cfg, req)
    else if req[0] == SID_TESTER_PRESENT then DecodeTesterPresent(req)
    else if req[0] == SID_WRITE_ADDRESS then DecodeWriteAddress(cfg, session, req)
    else if req[0] == SID_WRITE_DID then DecodeWriteDid(cfg, session, req)
    else Ignore
  }

  // ---- Executing commands

  function P2Of(session: byte): uint16 {
    if session == PROGRAMMING_SESSION then P2_PROGRAMMING else P2_DEFAULT
  }

  ghost function Execute(st: State, cmd: Command, io: Io): (State, Reply) {
    match cmd
    case SetSession(s) => (st.(session := s), SessionReply(s, P2Of(s), P2_STAR))
    case KeepAlive(suppress) => (st, if suppress then NoReply else Alive)
    case ReadDid(did, a, n) =>
      (st, if Fetched(st.mem, a, n, io) then DidData(did, Read(st.mem, a, n))
           else Negative(SID_READ_DID, NRC_CONDITIONS))
    case ReadAddress(a, n) =>
      (st, if Fetched(st.mem, a, n, io) then AddressData(Read(st.mem, a, n))
           else Negative(SID_READ_ADDRESS, NRC_CONDITIONS))
    case WriteDid(did, a, d) =>
      (st.(mem := Write(st.mem, a, Landed(d, io))),
       if Stored(d, io) then DidWritten(did) else Negative(SID_WRITE_DID, NRC_CONDITIONS))
    case WriteAddress(a, d) =>
      (st.(mem := Write(st.mem, a, Landed(d, io))),
       if Stored(d, io) then AddressWritten else Negative(SID_WRITE_ADDRESS, NRC_CONDITIONS))
  }

  ghost function Step(cfg: Config, st: State, e: Event): (State, Reply) {
    match Decode(cfg, st.session, e.req)
    case Ignore => (st, NoReply)
    case Reject(sid, nrc) => (st, Negative(sid, nrc))
    case Accept(cmd) => Execute(st, cmd, e.io)
  }

  // ---- Runs

  ghost function After(cfg: Config, st: State, run: seq<Event>): State {
    if run == [] then st
    else Step(cfg, After(cfg, st, run[..|run| - 1]), run[|run| - 1]).0
  }

  ghost function Replies(cfg: Config, st: State, run: seq<Event>): (r: seq<Reply>)
    ensures |r| == |run|
  {
    if run == [] then []
    else
      var front := run[..|run| - 1];
      Replies(cfg, st, front) + [Step(cfg, After(cfg, st, front), run[|run| - 1]).1]
  }

  lemma AfterSnoc(cfg: Config, st: State, run: seq<Event>, e: Event)
    ensures After(cfg, st, run + [e]) == Step(cfg, After(cfg, st, run), e).0
    ensures Replies(cfg, st, run + [e]) ==
            Replies(cfg, st, run) + [Step(cfg, After(cfg, st, run), e).1]
  {
  }

  lemma {:induction false} AfterAppend(cfg: Config, st: State, run: seq<Event>, more: seq<Event>)
    ensures After(cfg, st, run + more) == After(cfg, After(cfg, st, run), more)
  {
    if more == [] {
      assert run + more == run;
    } else {
      var front, last := more[..|more| - 1], more[|more| - 1];
      assert run + more == (run + front) + [last];
      AfterSnoc(cfg, st, run + front, last);
      AfterAppend(cfg, st, run, front);
    }
  }

  // ---- Encoding replies

  function Bytes16(v: uint16): seq<byte> {
    [v / 256, v % 256]
  }

  /** The bytes sent for a reply; nothing is sent for `NoReply`. */
  function Encode(r: Reply): seq<byte> {
    match r
    case NoReply => []
    case Negative(sid, nrc) => [SID_NEGATIVE, sid, nrc]
    case SessionReply(s, p2, p2star) =>
      [0x50, s] + Bytes16(p2) + Bytes16(p2star)
    case DidData(did, d) => [0x62] + Bytes16(did) + d
    case AddressData(d) => [0x63] + d
    case DidWritten(did) => [0x6E] + Bytes16(did)
    case AddressWritten => [0x7D]
    case Alive => [0x7E, SUBFUNCTION_DEFAULT]
  }

  // ---- What keeps the server's copies inside its buffers

  /** No copy of an accepted request leaves its buffer. A read by address fills a
      4096-byte buffer, a positive reply follows a header of one or three bytes, the
      identifier write copies its data from behind a three-byte header, and a written
      slice lies in the request buffer. The C code relies on this and does not test it. */
  ghost predicate CommandFits(m: Mem, cmd: Command, e: Event) {
    match cmd
    case ReadAddress(a, n) =>
      ReadFits(m, a, n, MAX_DATA_CHUNK_SIZE, e.io) && (Fetched(m, a, n, e.io) ==> n <= MAX_MESSAGE_SIZE - 1)
    case ReadDid(_, a, n) => Fetched(m, a, n, e.io) ==> n <= MAX_MESSAGE_SIZE - 3
    case WriteDid(_, _, d) => |d| <= MAX_MESSAGE_SIZE - 3
    case WriteAddress(_, d) =>
      2 <= |e.req| && DecodeTarget(e.req).Target? &&
      DecodeTarget(e.req).offset + Transferred(e.io, |d|) <= MAX_MESSAGE_SIZE
    case _ => true
  }

  /** The request is a message and, in this state and with this outcome, overruns nothing. */
  ghost predicate Fits(cfg: Config, st: State, e: Event) {
    |e.req| <= MAX_MESSAGE_SIZE &&
    match Decode(cfg, st.session, e.req)
    case Accept(cmd) => CommandFits(st.mem, cmd, e)
    case _ => true
  }

  /** Only the write services look at the session, and only to refuse. */
  lemma SessionOnlyGatesWrites(cfg: Config, session: byte, req: seq<byte>)
    ensures Decode(cfg, session, req).Accept? ==>
      Decode(cfg, session, req) == Decode(cfg, EXTENDED_SESSION, req)
    ensures Decode(cfg, session, req).Accept? && Decode(cfg, session, req).cmd.Writes() ==>
      session == EXTENDED_SESSION
  {
  }

  lemma AcceptedWriteStep(cfg: Config, st: State, e: Event, a: uint32, data: seq<byte>)
    requires Decode(cfg, st.session, e.req) == Accept(WriteAddress(a, data))
    ensures Step(cfg, st, e).0 == State(st.session, Write(st.mem, a, Landed(data, e.io)))
    ensures Step(cfg, st, e).1 == if Stored(data, e.io) then AddressWritten else Negative(SID_WRITE_ADDRESS, NRC_CONDITIONS)
  {
  }
}
