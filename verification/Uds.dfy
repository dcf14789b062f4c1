/** The dispatcher and the main loop, proved to refine the pure machine. */
module Uds {
  import opened Bytes
  import opened Services
  import opened Memory
  import opened Config
  import opened Machine
  import opened Can
  import opened Ecu
  import opened SessionHandlers
  import opened AddressHandlers
  import opened DidHandlers
  import opened Answers

  const NO_ERROR := 0
  const ERROR_UNKNOWN_SERVICE := 3
  const ERROR_INVALID_PARAM := 6

  /** The objects of one server are pairwise distinct where they have the same type. */
  ghost predicate Separate(s: UdsState, req: Message, resp: Message) {
    s.Valid() && req != resp && req.pdata != resp.pdata &&
    s.didMap as object != req.pdata && s.didMap as object != resp.pdata
  }

  /** The buffer a request leaves allocated: a read by address that its setup
      accepted and whose transfer failed keeps its data buffer. */
  ghost predicate Strands(cfg: Config, st: State, e: Event) {
    var v := Decode(cfg, st.session, e.req);
    v.Accept? && v.cmd.ReadAddress? && !Fetched(st.mem, v.cmd.address, v.cmd.size, e.io)
  }

  /** Handling a request takes the state and fills the response as the machine says. */
  ghost predicate Refines(cfg: Config, before: State, e: Event, after: State, content: seq<byte>) {
    after == Step(cfg, before, e).0 && content == Encode(Step(cfg, before, e).1)
  }

  method HandleSessionControl(s: UdsState, req: Message, resp: Message, io: Io)
    requires Separate(s, req, resp) && req.Valid() && resp.Valid()
    requires req.usz > 0 && req.pdata[0] == SID_SESSION_CONTROL
    modifies s`uses, resp, resp.pdata
    ensures resp.Valid()
    ensures Refines(s.cfg, old(s.Abs()), Event(req.Content(), io), s.Abs(), resp.Content())
  {
    var rc, uses := DscSetup(req);
    var res := DscResult(rc, 0, 0, 0);
    if rc == NRC_POSITIVE {
      res := Dsc(s, uses);
    }
    DscPack(res, resp);
  }

  method HandleTesterPresent(s: UdsState, req: Message, resp: Message, io: Io)
    requires Separate(s, req, resp) && req.Valid() && resp.Valid() && resp.usz == 0
    requires req.usz > 0 && req.pdata[0] == SID_TESTER_PRESENT
    modifies resp, resp.pdata
    ensures resp.Valid()
    ensures Refines(s.cfg, old(s.Abs()), Event(req.Content(), io), s.Abs(), resp.Content())
  {
    var rc, subfunction := TpSetup(req);
    var res := TpResult(rc, 0);
    if rc == NRC_POSITIVE {
      res := Tp(subfunction);
    }
    TpPack(res, resp);
  }

  method HandleReadDid(s: UdsState, req: Message, resp: Message, io: Io)
    requires Separate(s, req, resp) && req.Valid() && resp.Valid()
    requires req.usz > 0 && req.pdata[0] == SID_READ_DID && Fits(s.cfg, s.Abs(), Event(req.Content(), io))
    modifies s.didMap, resp, resp.pdata, s.heap
    ensures resp.Valid()
    ensures Refines(s.cfg, old(s.Abs()), Event(old(req.Content()), io), s.Abs(), resp.Content())
    ensures s.heap.live == old(s.heap.live) && s.Indexed()
  {
    ghost var content := req.Content();
    var rc, did, a, n := RdbiSetup(s, req);
    var res := RdbiResult(rc, 0, null, 0);
    if rc == NRC_POSITIVE {
      res := Rdbi(s, did, a, n, io);
    }
    RdbiPack(s, res, resp);
  }

  method HandleReadAddress(s: UdsState, req: Message, resp: Message, io: Io) returns (ghost stranded: set<object>)
    requires Separate(s, req, resp) && req.Valid() && resp.Valid()
    requires req.usz > 0 && req.pdata[0] == SID_READ_ADDRESS && Fits(s.cfg, s.Abs(), Event(req.Content(), io))
    modifies resp, resp.pdata, s.heap
    ensures resp.Valid()
    ensures Refines(s.cfg, old(s.Abs()), Event(req.Content(), io), s.Abs(), resp.Content())
    ensures s.heap.live == old(s.heap.live) + stranded && fresh(stranded)
    ensures |stranded| == if Strands(s.cfg, old(s.Abs()), Event(req.Content(), io)) then 1 else 0
  {
    stranded := {};
    var rc, a, n := RdbaSetup(s, req);
    var res := RdbaResult(rc, null, 0);
    if rc == NRC_POSITIVE {
      res := Rdba(s, a, n, io);
      if res.rc != NRC_POSITIVE {
        stranded := {res.pdata};
      }
    }
    RdbaPack(s, res, resp);
  }

  method HandleWriteAddress(s: UdsState, req: Message, resp: Message, io: Io)
    requires Separate(s, req, resp) && req.Valid() && req.Padded() && resp.Valid()
    requires req.usz > 0 && req.pdata[0] == SID_WRITE_ADDRESS && Fits(s.cfg, s.Abs(), Event(req.Content(), io))
    modifies s.file, resp, resp.pdata
    ensures resp.Valid()
    ensures Refines(s.cfg, old(s.Abs()), Event(req.Content(), io), s.Abs(), resp.Content())
  {
    ghost var e, before := Event(req.Content(), io), s.Abs();
    var rc, a, n, offset := WrbaSetup(s, req);
    if rc == NRC_POSITIVE {
      rc := Wrba(s, a, n, req, offset, io);
      AcceptedWriteStep(s.cfg, before, e, a, TakePad(e.req[offset..], n));
    }
    WrbaPack(rc, resp);
  }

  method HandleWriteDid(s: UdsState, req: Message, resp: Message, io: Io)
    requires Separate(s, req, resp) && req.Valid() && req.Padded() && resp.Valid()
    requires req.usz > 0 && req.pdata[0] == SID_WRITE_DID && Fits(s.cfg, s.Abs(), Event(req.Content(), io))
    modifies s.didMap, s.file, s.heap, resp, resp.pdata
    ensures resp.Valid()
    ensures Refines(s.cfg, old(s.Abs()), Event(old(req.Content()), io), s.Abs(), resp.Content())
    ensures s.heap.live == old(s.heap.live) && s.Indexed()
  {
    var rc, did, a, n, pdata := WrbiSetup(s, req);
    if rc == NRC_POSITIVE {
      rc := Wrbi(s, a, n, pdata, io);
    }
    WrbiPack(rc, did, resp);
    s.heap.Free(pdata);
  }

  /** `uds_handle_msg`. An unknown service leaves a negative response in the buffer
      but no length, so that nothing is sent. */
  method HandleMsg(s: UdsState, req: Message, resp: Message, io: Io) returns (err: nat, ghost stranded: set<object>)
    requires Separate(s, req, resp) && req.Valid() && req.Padded() && resp.Valid() && resp.usz == 0
    requires Fits(s.cfg, s.Abs(), Event(req.Content(), io))
    modifies s`uses, s.file, s.heap, s.didMap, resp, resp.pdata
    ensures resp.Valid()
    ensures Refines(s.cfg, old(s.Abs()), Event(old(req.Content()), io), s.Abs(), resp.Content())
    ensures s.heap.live == old(s.heap.live) + stranded && fresh(stranded)
    ensures |stranded| == if Strands(s.cfg, old(s.Abs()), Event(old(req.Content()), io)) then 1 else 0
    ensures old(s.Indexed()) ==> s.Indexed()
    ensures err == if req.usz == 0 then ERROR_INVALID_PARAM
                   else if KnownSid(req.pdata[0]) then NO_ERROR else ERROR_UNKNOWN_SERVICE
    ensures err != NO_ERROR ==> resp.Content() == []
    ensures err == ERROR_UNKNOWN_SERVICE ==>
      req.usz > 0 && resp.pdata[..3] == [0x7F, req.pdata[0], 0x11]
  {
    stranded := {};
    if req.usz < 1 {
      return ERROR_INVALID_PARAM, stranded;
    }
    err := NO_ERROR;
    var sid := req.pdata[0];
    if sid == SID_SESSION_CONTROL {
      HandleSessionControl(s, req, resp, io);
    } else if sid == SID_READ_DID {
      HandleReadDid(s, req, resp, io);
    } else if sid == SID_READ_ADDRESS {
      stranded := HandleReadAddress(s, req, resp, io);
    } else if sid == SID_TESTER_PRESENT {
      HandleTesterPresent(s, req, resp, io);
    } else if sid == SID_WRITE_ADDRESS {
      HandleWriteAddress(s, req, resp, io);
    } else if sid == SID_WRITE_DID {
      HandleWriteDid(s, req, resp, io);
    } else {
      resp.pdata[0] := SID_NEGATIVE;
      resp.pdata[1] := sid;
      resp.pdata[2] := NRC_SERVICE_NOT_SUPPORTED;
      err := ERROR_UNKNOWN_SERVICE;
    }
  }
}
