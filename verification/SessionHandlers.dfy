/** DiagnosticSessionControl and TesterPresent: setup, call and pack. */
module SessionHandlers {
  import opened Bytes
  import opened Services
  import opened Machine
  import opened Can
  import opened Ecu

  datatype DscResult = DscResult(rc: byte, uses: byte, p2: uint16, p2star: uint16)

  datatype TpResult = TpResult(rc: byte, subfunction: byte)

  method DscSetup(req: Message) returns (rc: byte, uses: byte)
    requires req.Valid()
    ensures DecodeSessionControl(req.Content()) ==
      if rc == NRC_POSITIVE then Accept(SetSession(uses)) else Reject(SID_SESSION_CONTROL, rc)
  {
    uses := 0;
    if req.usz != 2 {
      return NRC_LENGTH, uses;
    }
    uses := req.pdata[1];
    if uses != DEFAULT_SESSION && uses != PROGRAMMING_SESSION &&
       uses != EXTENDED_SESSION && uses != SAFETY_SESSION {
      return NRC_SUBFUNCTION, uses;
    }
    rc := NRC_POSITIVE;
  }

  /** Enters the requested session and reports its timings. */
  method Dsc(s: UdsState, uses: byte) returns (res: DscResult)
    requires DEFAULT_SESSION <= uses <= SAFETY_SESSION
    modifies s`uses
    ensures s.uses == uses
    ensures res == DscResult(NRC_POSITIVE, uses, P2Of(uses), P2_STAR)
  {
    s.uses := uses;
    var p2: uint16 := P2_DEFAULT;
    if uses == PROGRAMMING_SESSION {
      p2 := P2_PROGRAMMING;
    }
    res := DscResult(NRC_POSITIVE, uses, p2, P2_STAR);
  }

  method DscPack(res: DscResult, resp: Message)
    requires resp.Valid()
    modifies resp, resp.pdata
    ensures resp.Valid()
    ensures resp.Content() == Encode(
      if res.rc != NRC_POSITIVE then Negative(SID_SESSION_CONTROL, res.rc)
      else SessionReply(res.uses, res.p2, res.p2star))
  {
    if res.rc != NRC_POSITIVE {
      resp.PutNegative(SID_SESSION_CONTROL, res.rc);
      return;
    }
    PositiveSid(SID_SESSION_CONTROL);
    resp.pdata[0] := BitOr(SID_SESSION_CONTROL, 0x40);
    resp.pdata[1] := res.uses;
    resp.pdata[2] := (res.p2 / 256) % 256;
    resp.pdata[3] := res.p2 % 256;
    resp.pdata[4] := (res.p2star / 256) % 256;
    resp.pdata[5] := res.p2star % 256;
    resp.usz := 6;
  }

  method TpSetup(req: Message) returns (rc: byte, subfunction: byte)
    requires req.Valid()
    ensures DecodeTesterPresent(req.Content()) ==
      if rc == NRC_POSITIVE then Accept(KeepAlive(subfunction == SUBFUNCTION_SUPPRESS))
      else Reject(SID_TESTER_PRESENT, rc)
  {
    subfunction := 0;
    if req.usz != 2 {
      return NRC_LENGTH, subfunction;
    }
    if req.pdata[1] != SUBFUNCTION_DEFAULT && req.pdata[1] != SUBFUNCTION_SUPPRESS {
      return NRC_SUBFUNCTION, subfunction;
    }
    subfunction := req.pdata[1];
    rc := NRC_POSITIVE;
  }

  method Tp(subfunction: byte) returns (res: TpResult)
    ensures res == TpResult(NRC_POSITIVE, subfunction)
  {
    res := TpResult(NRC_POSITIVE, subfunction);
  }

  /** A suppressed answer leaves the cleared response message empty. */
  method TpPack(res: TpResult, resp: Message)
    requires resp.Valid() && resp.usz == 0
    modifies resp, resp.pdata
    ensures resp.Valid()
    ensures resp.Content() == Encode(
      if res.rc != NRC_POSITIVE then Negative(SID_TESTER_PRESENT, res.rc)
      else if res.subfunction == SUBFUNCTION_SUPPRESS then NoReply else Alive)
  {
    if res.rc != NRC_POSITIVE {
      resp.PutNegative(SID_TESTER_PRESENT, res.rc);
      return;
    }
    if res.subfunction != SUBFUNCTION_SUPPRESS {
      PositiveSid(SID_TESTER_PRESENT);
      resp.pdata[0] := BitOr(SID_TESTER_PRESENT, 0x40);
      resp.pdata[1] := SUBFUNCTION_DEFAULT;
      resp.usz := 2;
    }
  }
}
