/** What each service answers and changes, for every request, state and file outcome,
    in the bytes of requests and replies: the answers below do not name the machine's
    decoder, executor or constants. */
module Exchanges {
  import opened Bytes
  import opened Services
  import opened Memory
  import opened Config
  import opened Machine
  import opened Requests

  /** The message sent in answer to a request. */
  ghost function Answer(cfg: Config, st: State, e: Event): seq<byte> {
    Encode(Step(cfg, st, e).1)
  }

  /** The request is refused with 7F, its own service and this code, and changes nothing. */
  ghost predicate Refused(cfg: Config, st: State, e: Event, nrc: byte)
    requires e.req != []
  {
    Answer(cfg, st, e) == [0x7F, e.req[0], nrc] && Step(cfg, st, e).0 == st
  }

  /** DiagnosticSessionControl enters sessions 1 to 4 and answers their timings: 50 ms and
      5000 ms, or 5000 ms twice in the programming session. */
  lemma SessionControlAnswer(cfg: Config, st: State, e: Event)
    requires e.req != [] && e.req[0] == 0x10
    ensures |e.req| != 2 ==> Refused(cfg, st, e, 0x13)
    ensures |e.req| == 2 && !(1 <= e.req[1] <= 4) ==>
      Refused(cfg, st, e, 0x12)
    ensures |e.req| == 2 && 1 <= e.req[1] <= 4 ==>
      Step(cfg, st, e).0 == State(e.req[1], st.mem) &&
      Answer(cfg, st, e) ==
        [0x50, e.req[1]] + (if e.req[1] == 2 then [0x13, 0x88] else [0x00, 0x32]) + [0x13, 0x88]
  {
  }

  /** TesterPresent changes nothing; it is acknowledged for 0x00 and silent for 0x80. */
  lemma TesterPresentAnswer(cfg: Config, st: State, e: Event)
    requires e.req != [] && e.req[0] == 0x3E
    ensures Step(cfg, st, e).0 == st
    ensures Answer(cfg, st, e) ==
      if |e.req| != 2 then [0x7F, 0x3E, 0x13]
      else if e.req[1] == 0x00 then [0x7E, 0x00]
      else if e.req[1] == 0x80 then []
      else [0x7F, 0x3E, 0x12]
  {
  }

  /** An empty request and an unknown service change nothing and are not answered. */
  lemma UnknownAnswer(cfg: Config, st: State, e: Event)
    requires e.req == [] || e.req[0] !in {0x10, 0x22, 0x23, 0x2E, 0x3D, 0x3E}
    ensures Step(cfg, st, e).0 == st && Answer(cfg, st, e) == []
  {
  }

  // ---- By address

  /** The widths in the two nibbles of byte 1, high for the address and low for the size,
      are 1 to 4 and both fields are present. */
  predicate WellWidthed(req: seq<byte>) {
    2 <= |req| && 1 <= req[1] / 16 <= 4 && 1 <= req[1] % 16 <= 4
  }

  function HeaderLength(req: seq<byte>): nat
    requires WellWidthed(req)
  {
    2 + req[1] / 16 + req[1] % 16
  }

  /** The header carries `a` and `n`, most significant byte first. */
  predicate Carries(req: seq<byte>, a: nat, n: nat) {
    WellWidthed(req) && HeaderLength(req) <= |req| &&
    a < Pow256(req[1] / 16) && n < Pow256(req[1] % 16) &&
    req[2..HeaderLength(req)] == ToBigEndian(a, req[1] / 16) + ToBigEndian(n, req[1] % 16)
  }

  /** What the fields of any request with a format byte decode to. */
  lemma TargetForm(req: seq<byte>) returns (a: nat, n: nat)
    requires 2 <= |req|
    ensures !WellWidthed(req) ==> DecodeTarget(req) == Malformed(0x31)
    ensures WellWidthed(req) && |req| < HeaderLength(req) ==> DecodeTarget(req) == Malformed(0x13)
    ensures WellWidthed(req) && HeaderLength(req) <= |req| ==>
      Carries(req, a, n) && a < U32 && n < U32 && DecodeTarget(req) == Target(a, n, HeaderLength(req))
  {
    a, n := 0, 0;
    if WellWidthed(req) && HeaderLength(req) <= |req| {
      var aw, h := req[1] / 16, HeaderLength(req);
      var address, size := req[2..2 + aw], req[2 + aw..h];
      a, n := BigEndian(address), BigEndian(size);
      FieldForm(address);
      FieldForm(size);
      assert req[2..h] == address + size;
    }
  }

  lemma FieldForm(s: seq<byte>)
    requires |s| <= 4
    ensures BigEndian(s) < U32 && BigEndian(s) < Pow256(|s|) && ToBigEndian(BigEndian(s), |s|) == s
  {
    FieldFits(s);
    BigEndianBound(s);
    ToBigEndianInverse(s);
  }

  /** ReadMemoryByAddress changes nothing. A request whose fields are present is answered
      with the addressed bytes if its range is allowed, nonempty, backed and transferred. */
  lemma ReadAddressAnswer(cfg: Config, st: State, e: Event) returns (a: nat, n: nat)
    requires e.req != [] && e.req[0] == 0x23
    ensures Step(cfg, st, e).0 == st
    ensures |e.req| < 2 ==> Answer(cfg, st, e) == [0x7F, 0x23, 0x13]
    ensures 2 <= |e.req| && !WellWidthed(e.req) ==> Answer(cfg, st, e) == [0x7F, 0x23, 0x31]
    ensures WellWidthed(e.req) && |e.req| < HeaderLength(e.req) ==> Answer(cfg, st, e) == [0x7F, 0x23, 0x13]
    ensures WellWidthed(e.req) && HeaderLength(e.req) <= |e.req| ==>
      Carries(e.req, a, n) &&
      Answer(cfg, st, e) ==
        if !Allowed(cfg, a, n) then [0x7F, 0x23, 0x31]
        else if 0 < n == Transferred(e.io, n) && Holds(st.mem, a, n) then [0x63] + Read(st.mem, a, n)
        else [0x7F, 0x23, 0x22]
  {
    a, n := 0, 0;
    if 2 <= |e.req| {
      a, n := TargetForm(e.req);
      if WellWidthed(e.req) && HeaderLength(e.req) <= |e.req| {
        RangeTestAllows(cfg, a, n);
      }
    }
  }

  /** The bytes from `from` on, with zeros where the message has ended. */
  predicate DataAt(req: seq<byte>, from: nat, n: nat, data: seq<byte>) {
    |data| == n && forall i :: 0 <= i < n ==> data[i] == if from + i < |req| then req[from + i] else 0
  }

  /** A write of `n` bytes of `data` at `a` was performed: the bytes transferred are in
      memory, and it is answered `done` if they are all of a nonempty data. */
  ghost predicate Wrote(cfg: Config, st: State, e: Event, a: nat, data: seq<byte>, done: seq<byte>)
    requires e.req != []
  {
    Step(cfg, st, e).0 == State(st.session, Write(st.mem, a, data[..Transferred(e.io, |data|)])) &&
    Answer(cfg, st, e) ==
      if 0 < |data| == Transferred(e.io, |data|) then done else [0x7F, e.req[0], 0x22]
  }

  /** A write by address in session 3 whose fields are present: it is refused if its range
      is not allowed, or if its data is not present by the 32-bit test. */
  ghost predicate WritesTo(cfg: Config, st: State, e: Event, a: nat, n: nat, data: seq<byte>)
    requires e.req != [] && WellWidthed(e.req)
  {
    if !Allowed(cfg, a, n) then Refused(cfg, st, e, 0x31)
    else if |e.req| < (HeaderLength(e.req) + n) % U32 then Refused(cfg, st, e, 0x13)
    else DataAt(e.req, HeaderLength(e.req), n, data) && Wrote(cfg, st, e, a, data, [0x7D])
  }

  /** The request is a write that reaches its range test. */
  predicate InSessionWithFields(session: byte, req: seq<byte>) {
    session == 3 && WellWidthed(req) && HeaderLength(req) <= |req|
  }

  /** WriteMemoryByAddress is refused outside session 3 and without its two fields;
      otherwise it writes the bytes transferred to the address the fields carry. */
  lemma WriteAddressAnswer(cfg: Config, st: State, e: Event) returns (a: nat, n: nat, data: seq<byte>)
    requires e.req != [] && e.req[0] == 0x3D
    ensures !InSessionWithFields(st.session, e.req) ==>
      Refused(cfg, st, e,
        if |e.req| < 2 then 0x13 else if st.session != 3 then 0x7F else if !WellWidthed(e.req) then 0x31 else 0x13)
    ensures InSessionWithFields(st.session, e.req) ==>
      Carries(e.req, a, n) && WritesTo(cfg, st, e, a, n, data)
  {
    a, n, data := 0, 0, [];
    if InSessionWithFields(st.session, e.req) {
      a, n := TargetForm(e.req);
      data := WriteInSession(cfg, st, e, a, n);
    } else {
      WriteWithoutTarget(cfg, st, e);
    }
  }

  lemma WriteWithoutTarget(cfg: Config, st: State, e: Event)
    requires e.req != [] && e.req[0] == 0x3D && !InSessionWithFields(st.session, e.req)
    ensures Refused(cfg, st, e,
      if |e.req| < 2 then 0x13 else if st.session != 3 then 0x7F else if !WellWidthed(e.req) then 0x31 else 0x13)
  {
    if 2 <= |e.req| {
      var _, _ := TargetForm(e.req);
    }
  }

  lemma WriteInSession(cfg: Config, st: State, e: Event, a: nat, n: nat) returns (data: seq<byte>)
    requires e.req != [] && e.req[0] == 0x3D && InSessionWithFields(st.session, e.req) && a < U32 && n < U32
    requires DecodeTarget(e.req) == Target(a, n, HeaderLength(e.req))
    ensures WritesTo(cfg, st, e, a, n, data)
  {
    RangeTestAllows(cfg, a, n);
    data := TakePad(e.req[HeaderLength(e.req)..], n);
    if Allowed(cfg, a, n) && (HeaderLength(e.req) + n) % U32 <= |e.req| {
      AcceptedWriteStep(cfg, st, e, a, data);
      assert Stored(data, e.io) <==> 0 < n == Transferred(e.io, n);
    }
  }

  // ---- By identifier

  /** ReadDataByIdentifier changes nothing. It answers the bytes of the last entry with the
      identifier, `k`, if its range is allowed, nonempty, backed and transferred. */
  lemma ReadDidAnswer(cfg: Config, st: State, e: Event) returns (did: int, k: int)
    requires e.req != [] && e.req[0] == 0x22
    ensures Step(cfg, st, e).0 == st
    ensures |e.req| < 3 ==> Answer(cfg, st, e) == [0x7F, 0x22, 0x13]
    ensures 3 <= |e.req| ==> did == e.req[1] as int * 256 + e.req[2] as int
    ensures 3 <= |e.req| && k == -1 ==>
      Answer(cfg, st, e) == [0x7F, 0x22, 0x31] &&
      forall j :: !Defines(cfg.dids, j, did)
    ensures 3 <= |e.req| && k != -1 ==>
      IsLast(cfg.dids, k, did) &&
      var a, n := cfg.dids[k].address, cfg.dids[k].size;
      Answer(cfg, st, e) ==
        if !Allowed(cfg, a, n) then [0x7F, 0x22, 0x31]
        else if 0 < n == Transferred(e.io, n) && Holds(st.mem, a, n)
        then [0x62, e.req[1], e.req[2]] + Read(st.mem, a, n)
        else [0x7F, 0x22, 0x22]
  {
    did, k := 0, -1;
    if 3 <= |e.req| {
      did := DidOf(e.req);
      k := LookupIsLastDuplicate(cfg.dids, DidOf(e.req));
      if k != -1 {
        RangeTestAllows(cfg, cfg.dids[k].address, cfg.dids[k].size);
      }
    }
  }

  /** WriteDataByIdentifier is refused outside session 3. It writes to the last entry with
      the identifier, `k`, if its range is allowed, whatever its access level: the data
      after the identifier, zero-padded or cut to the entry's size. */
  lemma WriteDidAnswer(cfg: Config, st: State, e: Event) returns (did: int, k: int, data: seq<byte>)
    requires e.req != [] && e.req[0] == 0x2E
    ensures |e.req| < 3 ==> Refused(cfg, st, e, 0x13)
    ensures 3 <= |e.req| && st.session != 3 ==> Refused(cfg, st, e, 0x7F)
    ensures 3 <= |e.req| ==> did == e.req[1] as int * 256 + e.req[2] as int
    ensures 3 <= |e.req| && st.session == 3 && k == -1 ==>
      Refused(cfg, st, e, 0x31) && forall j :: !Defines(cfg.dids, j, did)
    ensures 3 <= |e.req| && st.session == 3 && k != -1 ==>
      IsLast(cfg.dids, k, did) &&
      if !Allowed(cfg, cfg.dids[k].address, cfg.dids[k].size) then Refused(cfg, st, e, 0x31)
      else
        DataAt(e.req, 3, cfg.dids[k].size, data) &&
        Wrote(cfg, st, e, cfg.dids[k].address, data, [0x6E, e.req[1], e.req[2]])
  {
    did, k, data := 0, -1, [];
    if 3 <= |e.req| {
      did := DidOf(e.req);
      if st.session == 3 {
        k := LookupIsLastDuplicate(cfg.dids, did);
        if k != -1 {
          data := TakePad(e.req[3..], cfg.dids[k].size);
          WriteToSlot(cfg, st, e, cfg.dids[k].address, cfg.dids[k].size, data);
        }
      }
    }
  }

  lemma WriteToSlot(cfg: Config, st: State, e: Event, a: uint32, n: uint32, data: seq<byte>)
    requires 3 <= |e.req| && e.req[0] == 0x2E && st.session == 3 && data == TakePad(e.req[3..], n)
    requires var slot := Lookup(cfg.dids, DidOf(e.req)); slot.valid && slot.address == a && slot.size == n
    ensures if !Allowed(cfg, a, n) then Refused(cfg, st, e, 0x31)
      else DataAt(e.req, 3, n, data) && Wrote(cfg, st, e, a, data, [0x6E, e.req[1], e.req[2]])
  {
    RangeTestAllows(cfg, a, n);
    if Allowed(cfg, a, n) {
      assert Decode(cfg, st.session, e.req) == Accept(WriteDid(DidOf(e.req), a, data));
      assert Stored(data, e.io) <==> 0 < n == Transferred(e.io, n);
    }
  }

  /** A configured identifier whose range is allowed and not empty can be read and, in
      session 3, written: the exchange in bytes, when the transfer is complete. */
  lemma DidExchange(cfg: Config, st: State, k: int, did: uint16, data: seq<byte>)
    requires IsLast(cfg.dids, k, did) && 0 < cfg.dids[k].size
    requires Allowed(cfg, cfg.dids[k].address, cfg.dids[k].size)
    ensures var a, n := cfg.dids[k].address, cfg.dids[k].size;
      Holds(st.mem, a, n) ==>
        Answer(cfg, st, Event([0x22, did / 256, did % 256], Complete)) ==
          [0x62, did / 256, did % 256] + Read(st.mem, a, n)
    ensures st.session == 3 ==>
      Answer(cfg, st, Event([0x2E, did / 256, did % 256] + data, Complete)) == [0x6E, did / 256, did % 256]
  {
    var e := Event([0x22, did / 256, did % 256], Complete);
    var _, j := ReadDidAnswer(cfg, st, e);
    assert Defines(cfg.dids, k, did) && j == k;
    WriteDidRequestRoundTrip(cfg, k, did, data);
  }
}
