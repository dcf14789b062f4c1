/** ReadDataByIdentifier and WriteDataByIdentifier: setup, call and pack. */
module DidHandlers {
  import opened Bytes
  import opened Services
  import opened Memory
  import opened Machine
  import opened Can
  import opened Ecu
  import opened Utils

  /** `(hi << 8) | lo` as a uint16. */
  method DecodeDid(req: Message) returns (did: uint16)
    requires req.Valid() && 3 <= req.usz
    ensures did == DidOf(req.Content())
  {
    ShiftOr(req.pdata[1], req.pdata[2]);
    did := BitOr(ShiftLeft8(req.pdata[1]), req.pdata[2]) % U16;
  }

  // ---- Read

  datatype RdbiResult = RdbiResult(rc: byte, did: uint16, pdata: array?<byte>, usz: int)

  method RdbiSetup(s: UdsState, req: Message) returns (rc: byte, did: uint16, a: uint32, n: uint32)
    requires s.Valid() && req.Valid()
    modifies s.didMap
    ensures DecodeReadDid(s.cfg, req.Content()) ==
      if rc == NRC_POSITIVE then Accept(ReadDid(did, a, n)) else Reject(SID_READ_DID, rc)
    ensures s.Indexed()
  {
    did, a, n := 0, 0, 0;
    ghost var content := req.Content();
    InitMapping(s.didMap, s.cfg.dids);
    assert req.Content() == content;
    if req.usz < 3 {
      return NRC_LENGTH, did, a, n;
    }
    did := DecodeDid(req);
    var slot := s.didMap[did];
    if !slot.valid {
      return NRC_RANGE, did, a, n;
    }
    var ok := CheckMemrange(s.cfg, slot.address, slot.size);
    if !ok {
      return NRC_RANGE, did, a, n;
    }
    rc, a, n := NRC_POSITIVE, slot.address, slot.size;
  }

  /** Allocates a buffer of the identifier's size and reads into it; a failed read
      releases the buffer at once. */
  method Rdbi(s: UdsState, did: uint16, a: uint32, n: nat, io: Io) returns (res: RdbiResult)
    modifies s.heap
    ensures res.rc == if Fetched(s.file.Map(), a, n, io) then NRC_POSITIVE else NRC_CONDITIONS
    ensures res.rc != NRC_POSITIVE ==> s.heap.live == old(s.heap.live)
    ensures res.rc == NRC_POSITIVE ==>
      res.did == did && res.usz == n && res.pdata != null && fresh(res.pdata) && res.pdata.Length == n &&
      s.heap.live == old(s.heap.live) + {res.pdata} && res.pdata[..n] == Read(s.file.Map(), a, n)
  {
    var pdata := s.heap.Calloc(n);
    var got := ReadMemory(s.file, a, n, pdata, io);
    if got < 0 {
      s.heap.Free(pdata);
      return RdbiResult(NRC_CONDITIONS, 0, null, got);
    }
    res := RdbiResult(NRC_POSITIVE, did, pdata, got);
  }

  method RdbiPack(s: UdsState, res: RdbiResult, resp: Message)
    requires resp.Valid()
    requires res.rc == NRC_POSITIVE ==> res.pdata != null && res.pdata in s.heap.live
    requires res.rc == NRC_POSITIVE ==> res.pdata != resp.pdata && 0 <= res.usz == res.pdata.Length
    requires res.rc == NRC_POSITIVE ==> 3 + res.usz <= MAX_MESSAGE_SIZE
    modifies resp, resp.pdata, s.heap
    ensures resp.Valid()
    ensures res.rc != NRC_POSITIVE ==>
      resp.Content() == Encode(Negative(SID_READ_DID, res.rc)) && s.heap.live == old(s.heap.live)
    ensures res.rc == NRC_POSITIVE ==>
      resp.Content() == Encode(DidData(res.did, old(res.pdata[..res.usz]))) &&
      s.heap.live == old(s.heap.live) - {res.pdata}
  {
    if res.rc != NRC_POSITIVE {
      resp.PutNegative(SID_READ_DID, res.rc);
      return;
    }
    PositiveSid(SID_READ_DID);
    resp.pdata[0] := BitOr(SID_READ_DID, 0x40);
    resp.pdata[1] := (res.did / 256) % 256;
    resp.pdata[2] := res.did % 256;
    Copy(resp.pdata, 3, res.pdata, 0, res.usz);
    resp.usz := 3 + res.usz;
    assert resp.pdata[..3] == [0x62] + Bytes16(res.did);
    assert resp.Content() == resp.pdata[..3] + resp.pdata[3..3 + res.usz];
    s.heap.Free(res.pdata);
  }

  // ---- Write

  /** Allocates the 4096-byte copy of the data before anything is checked. The copy
      of an accepted request is the zero-padded data. */
  method WrbiSetup(s: UdsState, req: Message)
    returns (rc: byte, did: uint16, a: uint32, n: uint32, pdata: array<byte>)
    requires s.Valid() && req.Valid() && req.Padded()
    requires DecodeWriteDid(s.cfg, s.uses, req.Content()).Accept? &&
             DecodeWriteDid(s.cfg, s.uses, req.Content()).cmd.WriteDid? ==>
      |DecodeWriteDid(s.cfg, s.uses, req.Content()).cmd.data| <= MAX_MESSAGE_SIZE - 3
    modifies s.didMap, s.heap
    ensures fresh(pdata) && s.heap.live == old(s.heap.live) + {pdata}
    ensures s.Indexed()
    ensures DecodeWriteDid(s.cfg, s.uses, req.Content()) ==
      if rc == NRC_POSITIVE && n <= pdata.Length then Accept(WriteDid(did, a, pdata[..n]))
      else Reject(SID_WRITE_DID, rc)
  {
    did, a, n := 0, 0, 0;
    ghost var content := req.Content();
    InitMapping(s.didMap, s.cfg.dids);
    pdata := s.heap.Calloc(4096);
    assert req.Content() == content;
    if req.usz < 3 {
      return NRC_LENGTH, did, a, n, pdata;
    }
    if s.uses != EXTENDED_SESSION {
      return NRC_SESSION, did, a, n, pdata;
    }
    did := DecodeDid(req);
    var slot := s.didMap[did];
    if !slot.valid {
      return NRC_RANGE, did, a, n, pdata;
    }
    var ok := CheckMemrange(s.cfg, slot.address, slot.size);
    if !ok {
      return NRC_RANGE, did, a, n, pdata;
    }
    rc, a, n := NRC_POSITIVE, slot.address, slot.size;
    Copy(pdata, 0, req.pdata, 3, n);
    req.PaddedContent(3, n);
    assert pdata[..n] == pdata[0..0 + n];
  }

  method Wrbi(s: UdsState, a: uint32, n: nat, pdata: array<byte>, io: Io) returns (rc: byte)
    requires n <= pdata.Length
    modifies s.file
    ensures s.file.Map() == Write(old(s.file.Map()), a, Landed(pdata[..n], io))
    ensures rc == if Stored(pdata[..n], io) then NRC_POSITIVE else NRC_CONDITIONS
  {
    assert pdata[0..0 + Transferred(io, n)] == Landed(pdata[..n], io);
    var written := WriteMemory(s.file, a, n, pdata, 0, io, pdata[..n]);
    rc := if written < 0 then NRC_CONDITIONS else NRC_POSITIVE;
  }

  method WrbiPack(rc: byte, did: uint16, resp: Message)
    requires resp.Valid()
    modifies resp, resp.pdata
    ensures resp.Valid()
    ensures resp.Content() == Encode(if rc != NRC_POSITIVE then Negative(SID_WRITE_DID, rc) else DidWritten(did))
  {
    if rc != NRC_POSITIVE {
      resp.PutNegative(SID_WRITE_DID, rc);
      return;
    }
    PositiveSid(SID_WRITE_DID);
    resp.pdata[0] := BitOr(SID_WRITE_DID, 0x40);
    resp.pdata[1] := (did / 256) % 256;
    resp.pdata[2] := did % 256;
    resp.usz := 3;
  }
}
