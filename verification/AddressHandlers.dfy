/** ReadMemoryByAddress and WriteMemoryByAddress: setup, call and pack. */
module AddressHandlers {
  import opened Bytes
  import opened Services
  import opened Memory
  import opened Machine
  import opened Can
  import opened Ecu
  import opened Utils

  /** A loop of `v = (v << 8) | raw[i]`: no 32-bit shift loses a bit, since before
      byte `i` the value is below 256^i. */
  method DecodeField(raw: array<byte>, from: nat, width: nat) returns (v: uint32)
    requires width <= 4 && from + width <= raw.Length
    ensures v == BigEndian(raw[from..from + width])
  {
    v := 0;
    for i := 0 to width
      invariant v == BigEndian(raw[from..from + i]) && v < Pow256(i)
    {
      PowerMonotone(i, 3);
      PowerValues();
      ShiftOr(v, raw[from + i]);
      ghost var read := raw[from..from + i];
      assert raw[from..from + i + 1] == read + [raw[from + i]];
      BigEndianSnoc(read, raw[from + i]);
      BigEndianBound(raw[from..from + i + 1]);
      FieldFits(raw[from..from + i + 1]);
      v := BitOr(ShiftLeft8(v), raw[from + i]);
    }
  }

  /** The part of both setups that reads the two fields. */
  method DecodeAddressAndSize(req: Message) returns (rc: byte, a: uint32, n: uint32, offset: nat)
    requires req.Valid() && 2 <= req.usz
    ensures DecodeTarget(req.Content()) ==
      if rc == NRC_POSITIVE then Target(a, n, offset) else Malformed(rc)
  {
    a, n, offset := 0, 0, 0;
    var aw, sw := (req.pdata[1] / 16) % 16, req.pdata[1] % 16;
    if aw == 0 || aw > 4 || sw == 0 || sw > 4 {
      return NRC_RANGE, a, n, offset;
    }
    if req.usz < 2 + aw + sw {
      return NRC_LENGTH, a, n, offset;
    }
    a := DecodeField(req.pdata, 2, aw);
    n := DecodeField(req.pdata, 2 + aw, sw);
    offset := 2 + aw + sw;
    rc := NRC_POSITIVE;
    TargetInBuffer(req, aw, sw);
  }

  lemma TargetOf(buf: seq<byte>, usz: nat, aw: nat, sw: nat)
    requires 1 <= aw <= 4 && 1 <= sw <= 4 && 2 + aw + sw <= usz <= |buf|
    requires buf[1] / 16 == aw && buf[1] % 16 == sw
    ensures BigEndian(buf[2..2 + aw]) < U32 && BigEndian(buf[2 + aw..2 + aw + sw]) < U32
    ensures DecodeTarget(buf[..usz]) ==
            Target(BigEndian(buf[2..2 + aw]), BigEndian(buf[2 + aw..2 + aw + sw]), 2 + aw + sw)
  {
    FieldFits(buf[2..2 + aw]);
    FieldFits(buf[2 + aw..2 + aw + sw]);
    SliceOfPrefix(buf, usz, 2, 2 + aw);
    SliceOfPrefix(buf, usz, 2 + aw, 2 + aw + sw);
  }

  lemma TargetInBuffer(req: Message, aw: nat, sw: nat)
    requires req.Valid() && 1 <= aw <= 4 && 1 <= sw <= 4 && 2 + aw + sw <= req.usz
    requires req.pdata[1] / 16 == aw && req.pdata[1] % 16 == sw
    ensures BigEndian(req.pdata[2..2 + aw]) < U32 && BigEndian(req.pdata[2 + aw..2 + aw + sw]) < U32
    ensures DecodeTarget(req.Content()) ==
      Target(BigEndian(req.pdata[2..2 + aw]), BigEndian(req.pdata[2 + aw..2 + aw + sw]), 2 + aw + sw)
  {
    var buf := req.pdata[..];
    TargetOf(buf, req.usz, aw, sw);
    assert req.Content() == buf[..req.usz];
    assert req.pdata[2..2 + aw] == buf[2..2 + aw];
    assert req.pdata[2 + aw..2 + aw + sw] == buf[2 + aw..2 + aw + sw];
  }

  // ---- Read

  datatype RdbaResult = RdbaResult(rc: byte, pdata: array?<byte>, usz: int)

  method RdbaSetup(s: UdsState, req: Message) returns (rc: byte, a: uint32, n: uint32)
    requires req.Valid()
    ensures DecodeReadAddress(s.cfg, req.Content()) ==
      if rc == NRC_POSITIVE then Accept(ReadAddress(a, n)) else Reject(SID_READ_ADDRESS, rc)
  {
    a, n := 0, 0;
    if req.usz < 2 {
      return NRC_LENGTH, a, n;
    }
    var offset;
    rc, a, n, offset := DecodeAddressAndSize(req);
    if rc != NRC_POSITIVE {
      return;
    }
    var ok := CheckMemrange(s.cfg, a, n);
    if !ok {
      rc := NRC_RANGE;
    }
  }

  /** Allocates the data buffer and reads into it. When the read fails the buffer
      stays allocated: only a positive answer releases it. */
  method Rdba(s: UdsState, a: uint32, n: nat, io: Io) returns (res: RdbaResult)
    requires ReadFits(s.file.Map(), a, n, MAX_DATA_CHUNK_SIZE, io)
    modifies s.heap
    ensures res.pdata != null && fresh(res.pdata) && s.heap.live == old(s.heap.live) + {res.pdata}
    ensures res.pdata.Length == MAX_DATA_CHUNK_SIZE
    ensures res.rc == if Fetched(s.file.Map(), a, n, io) then NRC_POSITIVE else NRC_CONDITIONS
    ensures res.rc == NRC_POSITIVE ==>
      res.usz == n && n <= MAX_DATA_CHUNK_SIZE && res.pdata[..n] == Read(s.file.Map(), a, n)
  {
    var pdata := s.heap.Calloc(MAX_DATA_CHUNK_SIZE);
    var got := ReadMemory(s.file, a, n, pdata, io);
    if got < 0 {
      return RdbaResult(NRC_CONDITIONS, pdata, got);
    }
    res := RdbaResult(NRC_POSITIVE, pdata, got);
  }

  method RdbaPack(s: UdsState, res: RdbaResult, resp: Message)
    requires resp.Valid()
    requires res.rc == NRC_POSITIVE ==> res.pdata != null && res.pdata in s.heap.live
    requires res.rc == NRC_POSITIVE ==> res.pdata != resp.pdata && res.pdata.Length == MAX_DATA_CHUNK_SIZE
    requires res.rc == NRC_POSITIVE ==> 0 <= res.usz < MAX_MESSAGE_SIZE
    modifies resp, resp.pdata, s.heap
    ensures resp.Valid()
    ensures res.rc != NRC_POSITIVE ==>
      resp.Content() == Encode(Negative(SID_READ_ADDRESS, res.rc)) && s.heap.live == old(s.heap.live)
    ensures res.rc == NRC_POSITIVE ==>
      resp.Content() == Encode(AddressData(old(res.pdata[..res.usz]))) &&
      s.heap.live == old(s.heap.live) - {res.pdata}
  {
    if res.rc != NRC_POSITIVE {
      resp.PutNegative(SID_READ_ADDRESS, res.rc);
      return;
    }
    PositiveSid(SID_READ_ADDRESS);
    resp.pdata[0] := BitOr(SID_READ_ADDRESS, 0x40);
    Copy(resp.pdata, 1, res.pdata, 0, res.usz);
    resp.usz := 1 + res.usz;
    assert resp.pdata[..1] == [0x63];
    assert resp.Content() == resp.pdata[..1] + resp.pdata[1..1 + res.usz];
    s.heap.Free(res.pdata);
  }

  // ---- Write

  /** `offset` stands for the pointer to the data inside the request. */
  method WrbaSetup(s: UdsState, req: Message) returns (rc: byte, a: uint32, n: uint32, offset: nat)
    requires req.Valid()
    ensures rc == NRC_POSITIVE ==> 2 <= req.usz && DecodeTarget(req.Content()) == Target(a, n, offset)
    ensures DecodeWriteAddress(s.cfg, s.uses, req.Content()) ==
      if rc == NRC_POSITIVE then Accept(WriteAddress(a, TakePad(req.Content()[offset..], n)))
      else Reject(SID_WRITE_ADDRESS, rc)
  {
    a, n, offset := 0, 0, 0;
    if req.usz < 2 {
      return NRC_LENGTH, a, n, offset;
    }
    if s.uses != EXTENDED_SESSION {
      return NRC_SESSION, a, n, offset;
    }
    rc, a, n, offset := DecodeAddressAndSize(req);
    if rc != NRC_POSITIVE {
      return;
    }
    var ok := CheckMemrange(s.cfg, a, n);
    if !ok {
      return NRC_RANGE, a, n, offset;
    }
    var end: uint32 := (offset + n) % U32;
    if req.usz < end {
      return NRC_LENGTH, a, n, offset;
    }
  }

  /** Writes the `n` bytes of data at `from` in the request buffer. */
  method Wrba(s: UdsState, a: uint32, n: nat, req: Message, from: nat, io: Io) returns (rc: byte)
    requires req.Valid() && req.Padded()
    requires from <= req.usz && from + Transferred(io, n) <= MAX_MESSAGE_SIZE
    modifies s.file
    ensures var d := TakePad(req.Content()[from..], n);
      s.file.Map() == Write(old(s.file.Map()), a, Landed(d, io)) &&
      rc == if Stored(d, io) then NRC_POSITIVE else NRC_CONDITIONS
  {
    ghost var d, t := TakePad(req.Content()[from..], n), Transferred(io, n);
    req.PaddedContent(from, t);
    assert TakePad(req.Content()[from..], t) == d[..t];
    var written := WriteMemory(s.file, a, n, req.pdata, from, io, d);
    rc := if written < 0 then NRC_CONDITIONS else NRC_POSITIVE;
  }

  method WrbaPack(rc: byte, resp: Message)
    requires resp.Valid()
    modifies resp, resp.pdata
    ensures resp.Valid()
    ensures resp.Content() == Encode(if rc != NRC_POSITIVE then Negative(SID_WRITE_ADDRESS, rc) else AddressWritten)
  {
    if rc != NRC_POSITIVE {
      resp.PutNegative(SID_WRITE_ADDRESS, rc);
      return;
    }
    PositiveSid(SID_WRITE_ADDRESS);
    resp.pdata[0] := BitOr(SID_WRITE_ADDRESS, 0x40);
    resp.usz := 1;
  }
}
