/** The server process: configuration, memory file and main loop. */
module UdsServer {
  import opened Bytes
  import opened Services
  import opened Memory
  import opened Config
  import opened Machine
  import opened Can
  import opened Ecu
  import opened Uds
  import opened Options
  import opened Provenance
  import opened Faults
  import opened Algebra
  import opened CText
  import opened ConfigText
  import opened Configuration

  /** The messages a list of replies puts on the wire: empty ones are not sent. */
  function Wire(replies: seq<Reply>): seq<seq<byte>> {
    if replies == [] then []
    else
      var m := Encode(replies[|replies| - 1]);
      Wire(replies[..|replies| - 1]) + if m == [] then [] else [m]
  }

  /** How many requests of a run leave a buffer allocated. */
  ghost function StrandedBy(cfg: Config, st: State, run: seq<Event>): nat {
    if run == [] then 0
    else
      var front := run[..|run| - 1];
      StrandedBy(cfg, st, front) + if Strands(cfg, After(cfg, st, front), run[|run| - 1]) then 1 else 0
  }

  lemma NegativeBytes(r: Reply, sid: byte, nrc: byte)
    ensures Encode(r) == [SID_NEGATIVE, sid, nrc] <==> r == Negative(sid, nrc)
  {
    var m := Encode(r);
    if m == [SID_NEGATIVE, sid, nrc] {
      assert m[0] == SID_NEGATIVE && m[1] == sid && m[2] == nrc;
    }
  }

  /** A request leaves its buffer allocated exactly when it is answered 7F 23 22: the
      number of stranded buffers can be read off the replies. */
  lemma StrandsIffAnswered(cfg: Config, st: State, e: Event)
    ensures Strands(cfg, st, e) <==>
      Encode(Step(cfg, st, e).1) == [SID_NEGATIVE, SID_READ_ADDRESS, NRC_CONDITIONS]
  {
    NegativeBytes(Step(cfg, st, e).1, SID_READ_ADDRESS, NRC_CONDITIONS);
    var v := Decode(cfg, st.session, e.req);
    if v.Reject? && v.sid == SID_READ_ADDRESS && |e.req| >= 2 && DecodeTarget(e.req).Malformed? {
      assert v.nrc != NRC_CONDITIONS;
    }
  }

  function Count(replies: seq<Reply>, r: Reply): nat {
    if replies == [] then 0
    else Count(replies[..|replies| - 1], r) + if replies[|replies| - 1] == r then 1 else 0
  }

  /** Over any run the buffers left allocated are as many as the replies 7F 23 22. */
  lemma {:induction false} StrandedCountsReplies(cfg: Config, st: State, run: seq<Event>)
    ensures StrandedBy(cfg, st, run) ==
            Count(Replies(cfg, st, run), Negative(SID_READ_ADDRESS, NRC_CONDITIONS))
  {
    if run != [] {
      var front, last := run[..|run| - 1], run[|run| - 1];
      StrandedCountsReplies(cfg, st, front);
      StrandsIffAnswered(cfg, After(cfg, st, front), last);
      NegativeBytes(Step(cfg, After(cfg, st, front), last).1, SID_READ_ADDRESS, NRC_CONDITIONS);
      var r := Replies(cfg, st, run);
      assert r[..|r| - 1] == Replies(cfg, st, front);
    }
  }

  /** The request, on a file of length `len`, is an accepted read by address that is empty,
      transferred short, or ends past the file. */
  predicate StrandingRead(cfg: Config, len: nat, e: Event) {
    match Decode(cfg, EXTENDED_SESSION, e.req)
    case Accept(ReadAddress(a, n)) => n == 0 || Transferred(e.io, n) < n || len < a + n
    case _ => false
  }

  lemma StrandsIffRead(cfg: Config, st: State, len: nat, e: Event)
    requires Contiguous(st.mem, len)
    ensures Strands(cfg, st, e) <==> StrandingRead(cfg, len, e)
  {
    var v := Decode(cfg, EXTENDED_SESSION, e.req);
    ReadVerdictIgnoresSession(cfg, st.session, e.req);
    if v.Accept? && v.cmd.ReadAddress? {
      FetchedIff(st.mem, len, v.cmd.address, v.cmd.size, e.io);
    }
  }

  lemma ReadVerdictIgnoresSession(cfg: Config, s: byte, req: seq<byte>)
    ensures var v, w := Decode(cfg, s, req), Decode(cfg, EXTENDED_SESSION, req);
      (v.Accept? && v.cmd.ReadAddress?) || (w.Accept? && w.cmd.ReadAddress?) ==> v == w
  {
  }

  /** The stranding reads of a run, counted from its requests and outcomes alone. */
  ghost function StrandingReads(cfg: Config, s0: byte, len: nat, run: seq<Event>): nat {
    if run == [] then 0
    else
      var front, last := run[..|run| - 1], run[|run| - 1];
      StrandingReads(cfg, s0, len, front) +
      if StrandingRead(cfg, LengthAfter(cfg, s0, len, front), last) then 1 else 0
  }

  /** Conservation over runs, read off the requests: on a file of any length the buffers
      a run leaves allocated are as many as its stranding reads. */
  lemma {:induction false} StrandedCountsReads(cfg: Config, st: State, len: nat, run: seq<Event>)
    requires Contiguous(st.mem, len)
    ensures StrandedBy(cfg, st, run) == StrandingReads(cfg, st.session, len, run)
  {
    if run != [] {
      var front, last := run[..|run| - 1], run[|run| - 1];
      StrandedCountsReads(cfg, st, len, front);
      FileLength(cfg, st, front, len);
      StrandsIffRead(cfg, After(cfg, st, front), LengthAfter(cfg, st.session, len, front), last);
    }
  }

  ghost predicate StrandsAt(cfg: Config, s0: byte, len: nat, run: seq<Event>, k: int) {
    0 <= k < |run| && StrandingRead(cfg, LengthAfter(cfg, s0, len, run[..k]), run[k])
  }

  lemma StrandsAtSnoc(cfg: Config, s0: byte, len: nat, run: seq<Event>)
    requires run != []
    ensures var front, last := run[..|run| - 1], run[|run| - 1];
      (exists k :: StrandsAt(cfg, s0, len, run, k)) <==>
      (exists k :: StrandsAt(cfg, s0, len, front, k)) || StrandingRead(cfg, LengthAfter(cfg, s0, len, front), last)
  {
    var n := |run| - 1;
    var front := run[..n];
    assert StrandsAt(cfg, s0, len, run, n) <==> StrandingRead(cfg, LengthAfter(cfg, s0, len, front), run[n]);
    forall k | 0 <= k < n ensures StrandsAt(cfg, s0, len, run, k) <==> StrandsAt(cfg, s0, len, front, k) {
      assert front[..k] == run[..k];
    }
  }

  lemma {:induction false} NoStrandingReads(cfg: Config, s0: byte, len: nat, run: seq<Event>)
    ensures StrandingReads(cfg, s0, len, run) == 0 <==> !exists k :: StrandsAt(cfg, s0, len, run, k)
  {
    if run != [] {
      NoStrandingReads(cfg, s0, len, run[..|run| - 1]);
      StrandsAtSnoc(cfg, s0, len, run);
    }
  }

  /** A run ends with the data buffers it began with if and only if none of its requests
      is an accepted read by address that is empty, short, or past the file. */
  lemma BuffersConservedIff(cfg: Config, st: State, len: nat, run: seq<Event>)
    requires Contiguous(st.mem, len)
    ensures StrandedBy(cfg, st, run) == 0 <==> !exists k :: StrandsAt(cfg, st.session, len, run, k)
  {
    StrandedCountsReads(cfg, st, len, run);
    NoStrandingReads(cfg, st.session, len, run);
  }

  /** A request that keeps its buffer in every state and under every outcome: the read
      of zero bytes at the start of the window. */
  lemma EmptyReadStrands(cfg: Config, st: State, io: Io)
    requires cfg.startAddr <= cfg.endAddr
    ensures Strands(cfg, st, Event(ReadAddressRequest(cfg.startAddr, 0), io))
  {
    ReadAddressRequestDecodes(cfg, st.session, cfg.startAddr, 0);
  }

  lemma RunSnoc(cfg: Config, st: State, run: seq<Event>, k: nat)
    requires k < |run|
    ensures After(cfg, st, run[..k + 1]) == Step(cfg, After(cfg, st, run[..k]), run[k]).0
    ensures Wire(Replies(cfg, st, run[..k + 1])) ==
      Wire(Replies(cfg, st, run[..k])) +
      var m := Encode(Step(cfg, After(cfg, st, run[..k]), run[k]).1); if m == [] then [] else [m]
    ensures StrandedBy(cfg, st, run[..k + 1]) ==
      StrandedBy(cfg, st, run[..k]) + if Strands(cfg, After(cfg, st, run[..k]), run[k]) then 1 else 0
  {
    assert run[..k + 1] == run[..k] + [run[k]];
    AfterSnoc(cfg, st, run[..k], run[k]);
    assert run[..k + 1][..k] == run[..k];
    var r := Replies(cfg, st, run[..k + 1]);
    assert r[..|r| - 1] == Replies(cfg, st, run[..k]);
  }

  /** One turn of the main loop: clear both buffers, receive, handle, and send the
      response unless there was an error or it is empty. */
  method Turn(s: UdsState, req: Message, resp: Message, e: Event) returns (sent: seq<seq<byte>>, ghost stranded: set<object>)
    requires Separate(s, req, resp) && req.Valid() && resp.Valid() && Fits(s.cfg, s.Abs(), e)
    modifies s`uses, s.file, s.heap, s.didMap, req, resp, req.pdata, resp.pdata
    ensures req.Valid() && resp.Valid()
    ensures s.Abs() == Step(s.cfg, old(s.Abs()), e).0
    ensures var m := Encode(Step(s.cfg, old(s.Abs()), e).1); sent == if m == [] then [] else [m]
    ensures s.heap.live == old(s.heap.live) + stranded && fresh(stranded)
    ensures |stranded| == if Strands(s.cfg, old(s.Abs()), e) then 1 else 0
    ensures old(s.Indexed()) ==> s.Indexed()
  {
    req.Clear();
    resp.Clear();
    req.Receive(e.req);
    var err;
    err, stranded := HandleMsg(s, req, resp, e.io);
    sent := if err == NO_ERROR && resp.usz != 0 then [resp.pdata[..resp.usz]] else [];
  }

  /** The main loop over any list of requests and file outcomes: what is sent, the
      final session and the final memory are those of the pure machine. */
  method Serve(s: UdsState, run: seq<Event>) returns (sent: seq<seq<byte>>)
    requires s.Valid()
    requires forall i :: 0 <= i < |run| ==> Fits(s.cfg, After(s.cfg, s.Abs(), run[..i]), run[i])
    modifies s`uses, s.file, s.heap, s.didMap
    ensures s.Abs() == After(s.cfg, old(s.Abs()), run)
    ensures sent == Wire(Replies(s.cfg, old(s.Abs()), run))
    ensures |s.heap.live| == |old(s.heap.live)| + StrandedBy(s.cfg, old(s.Abs()), run)
    ensures old(s.Indexed()) ==> s.Indexed()
  {
    sent := [];
    var req := new Message();
    var resp := new Message();
    ghost var st := s.Abs();
    for i := 0 to |run|
      invariant Separate(s, req, resp) && req.Valid() && resp.Valid()
      invariant fresh(req) && fresh(resp) && fresh(req.pdata) && fresh(resp.pdata)
      invariant s.Abs() == After(s.cfg, st, run[..i])
      invariant sent == Wire(Replies(s.cfg, st, run[..i]))
      invariant |s.heap.live| == |old(s.heap.live)| + StrandedBy(s.cfg, st, run[..i])
      invariant old(s.Indexed()) ==> s.Indexed()
    {
      ghost var live := s.heap.live;
      var more;
      ghost var stranded;
      more, stranded := Turn(s, req, resp, run[i]);
      assert live !! stranded;
      sent := sent + more;
      RunSnoc(s.cfg, st, run, i);
    }
    assert run[..|run|] == run;
  }

  /** The configuration a server reads from the given lines. */
  function ConfigOf(lines: seq<Line>): Config {
    Config(LastSetting(lines, "start_addr"), LastSetting(lines, "end_addr"), HandleAll([], lines))
  }

  /** What one more line changes: the memory section's two keys set the end they name,
      and a line of the other section adds its entry while there is room. */
  lemma ConfigAfterLine(lines: seq<Line>, l: Line)
    ensures var before, after := ConfigOf(lines), ConfigOf(lines + [l]);
      var memory := SameIgnoringCase(l.section, "memory");
      after.startAddr == (if memory && SameIgnoringCase(l.name, "start_addr") then ParseHex(l.value) else before.startAddr) &&
      after.endAddr == (if memory && SameIgnoringCase(l.name, "end_addr") then ParseHex(l.value) else before.endAddr) &&
      after.dids == (if IsDidLine(l) && |before.dids| < 50 then before.dids + [Entry(l.name, l.value)] else before.dids)
  {
    LastSettingSnoc(lines, l, "start_addr");
    LastSettingSnoc(lines, l, "end_addr");
    HandleAllSnoc([], lines, l);
  }

  /** The state a server starts in: session 0 and the file extended with zeros to
      `end - start` bytes, computed in 32 bits. */
  ghost function InitialState(cfg: Config, initial: seq<byte>): State {
    State(INITIAL_SESSION, MapOf(InitialBytes(cfg, initial)))
  }

  function InitialBytes(cfg: Config, initial: seq<byte>): seq<byte> {
    TakePad(initial, Max((cfg.endAddr - cfg.startAddr) % U32, |initial|))
  }

  /** The created file is one stretch from 0 of exactly this length. */
  lemma InitialLength(cfg: Config, initial: seq<byte>)
    ensures Contiguous(InitialState(cfg, initial).mem, Max((cfg.endAddr - cfg.startAddr) % U32, |initial|))
  {
  }

  /** The server starts in session 0, and the file keeps its bytes: each one is where it
      was, and zeros follow up to the created length. */
  lemma InitialContent(cfg: Config, initial: seq<byte>, x: int)
    ensures InitialState(cfg, initial).session == 0
    ensures ByteAt(InitialState(cfg, initial).mem, x) ==
      if 0 <= x < |initial| then Some(initial[x])
      else if |initial| <= x < (cfg.endAddr - cfg.startAddr) % U32 then Some(0)
      else None
  {
  }

  /** From start-up, over any run: each byte of a positive read is the one the latest
      write covering its address left, else the file's old byte, else zero. */
  lemma StartedReadReturns(cfg: Config, initial: seq<byte>, run: seq<Event>, e: Event, d: seq<byte>, i: int)
    returns (x: int)
    requires ReadData(Step(cfg, After(cfg, InitialState(cfg, initial), run), e).1) == Some(d)
    requires 0 <= i < |d|
    ensures ReadsByte(cfg, LastSession(0, run), e.req, |d|, i, x)
    ensures match LastPut(cfg, 0, run, x)
      case Some(put) => d[i] == put
      case None => d[i] == if x < |initial| then initial[x] else 0
  {
    OldBytes(cfg, initial);
    x := ReadFrom(cfg, InitialState(cfg, initial), initial, run, e, d, i);
  }

  /** Every byte is the one of these at its address, or zero past them. */
  ghost predicate HoldsOnly(m: Mem, bytes: seq<byte>) {
    forall x :: x in m ==> 0 <= x && m[x] == if x < |bytes| then bytes[x] else 0
  }

  ghost predicate HoldsAll(m: Mem, bytes: seq<byte>) {
    forall x :: 0 <= x < |bytes| ==> x in m
  }

  lemma OldBytes(cfg: Config, initial: seq<byte>)
    ensures InitialState(cfg, initial).session == 0
    ensures HoldsOnly(InitialState(cfg, initial).mem, initial) && HoldsAll(InitialState(cfg, initial).mem, initial)
  {
  }

  lemma ReadFrom(cfg: Config, st: State, initial: seq<byte>, run: seq<Event>, e: Event, d: seq<byte>, i: int)
    returns (x: int)
    requires st.session == 0 && HoldsOnly(st.mem, initial) && HoldsAll(st.mem, initial)
    requires ReadData(Step(cfg, After(cfg, st, run), e).1) == Some(d)
    requires 0 <= i < |d|
    ensures ReadsByte(cfg, LastSession(0, run), e.req, |d|, i, x)
    ensures match LastPut(cfg, 0, run, x)
      case Some(put) => d[i] == put
      case None => d[i] == if x < |initial| then initial[x] else 0
  {
    x := ReadReturnsLatestWrite(cfg, st, run, e, d, i);
  }

  /** A started server answers, after every run, all accepted, nonempty, non-wrapping,
      fault-free reads with data if and only if the window starts at 0, or is empty, or
      the file already reached its end: the file is created with end - start bytes while
      requests use absolute addresses. */
  lemma StartedServerReadsIff(cfg: Config, initial: seq<byte>)
    ensures (forall run :: ReadsAnswered(cfg, After(cfg, InitialState(cfg, initial), run))) <==>
      cfg.startAddr == 0 || cfg.endAddr <= cfg.startAddr || cfg.endAddr <= |initial|
  {
    var st, len := InitialState(cfg, initial), Max((cfg.endAddr - cfg.startAddr) % U32, |initial|);
    if cfg.startAddr == 0 || cfg.endAddr <= |initial| {
      forall run ensures ReadsAnswered(cfg, After(cfg, st, run)) {
        ReadsComplete(cfg, st, run, len);
      }
    } else if cfg.endAddr <= cfg.startAddr {
      forall run ensures ReadsAnswered(cfg, After(cfg, st, run)) {
        EmptyWindow(cfg, After(cfg, st, run));
      }
    } else {
      LastByteUnanswered(cfg, st, len);
      assert After(cfg, st, []) == st;
    }
  }

  lemma EmptyWindow(cfg: Config, st: State)
    requires cfg.endAddr <= cfg.startAddr
    ensures ReadsAnswered(cfg, st)
  {
    forall req: seq<byte> | CleanRead(cfg, st.session, req) ensures false {
      CleanReadEnd(cfg, st.session, req);
    }
  }

  /** The input that fails: reading the window's last byte from a shorter file. */
  lemma LastByteUnanswered(cfg: Config, st: State, len: nat)
    requires Contiguous(st.mem, len) && len < cfg.endAddr && cfg.startAddr < cfg.endAddr
    ensures var req := ReadAddressRequest(cfg.endAddr - 1, 1);
      CleanRead(cfg, st.session, req) &&
      Step(cfg, st, Event(req, Complete)).1 == Negative(SID_READ_ADDRESS, NRC_CONDITIONS)
    ensures !ReadsAnswered(cfg, st)
  {
    ReadAddressRequestDecodes(cfg, st.session, cfg.endAddr - 1, 1);
    FetchedIff(st.mem, len, cfg.endAddr - 1, 1, Complete);
    UnansweredRead(cfg, st, ReadAddressRequest(cfg.endAddr - 1, 1), cfg.endAddr - 1);
  }

  lemma UnansweredRead(cfg: Config, st: State, req: seq<byte>, a: uint32)
    requires a + 1 < U32 && Decode(cfg, st.session, req) == Accept(ReadAddress(a, 1))
    requires !Fetched(st.mem, a, 1, Complete)
    ensures CleanRead(cfg, st.session, req)
    ensures Step(cfg, st, Event(req, Complete)).1 == Negative(SID_READ_ADDRESS, NRC_CONDITIONS)
    ensures !ReadsAnswered(cfg, st)
  {
    assert CleanRead(cfg, st.session, req);
  }

  method ReadConfig(lines: seq<Line>) returns (cfg: Config)
    requires forall i :: 0 <= i < |lines| ==> NUL !in lines[i].name && NUL !in lines[i].value
    ensures cfg == ConfigOf(lines)
  {
    var config := ParseConfig(lines);
    var dids := config.Snapshot();
    cfg := Config(config.startAddr, config.endAddr, dids);
  }

  /** What a failed creation leaves: the old bytes and the zeros that were transferred. */
  predicate ShortFile(cfg: Config, initial: seq<byte>, create: Io, bytes: seq<byte>) {
    var usz := (cfg.endAddr - cfg.startAddr) % U32;
    bytes == initial + Zeros(Transferred(create, if usz < |initial| then 0 else usz - |initial|))
  }

  /** Start-up: create the memory file and the server state. */
  method Boot(cfg: Config, file: MemFile, create: Io) returns (s: UdsState, ok: bool)
    modifies file
    ensures ok <==> Creates(old(file.bytes), (cfg.endAddr - cfg.startAddr) % U32, create)
    ensures fresh(s) && fresh(s.heap) && fresh(s.didMap) && s.Valid() && s.file == file
    ensures s.cfg == cfg && s.heap.live == {}
    ensures ok ==> s.Abs() == InitialState(cfg, old(file.bytes))
    ensures !ok ==> ShortFile(cfg, old(file.bytes), create, file.bytes)
  {
    var rc := file.Create((cfg.endAddr - cfg.startAddr) % U32, create);
    ok := rc >= 0;
    s := new UdsState(cfg, file);
  }

  /** A file that holds the memory a run leaves has the length read off its requests. */
  lemma ServedLength(cfg: Config, initial: seq<byte>, run: seq<Event>, bytes: seq<byte>)
    requires MapOf(bytes) == After(cfg, InitialState(cfg, initial), run).mem
    ensures |bytes| == LengthAfter(cfg, INITIAL_SESSION, |InitialBytes(cfg, initial)|, run)
  {
    var created := |InitialBytes(cfg, initial)|;
    FileLength(cfg, InitialState(cfg, initial), run, created);
    LengthUnique(MapOf(bytes), |bytes|, LengthAfter(cfg, INITIAL_SESSION, created, run));
  }

  /** What a process does that was asked to create the file and serve a run: it sends the
      machine's messages and leaves the machine's memory, in a file whose length is read
      off the requests; or the file cannot be created, and nothing is sent. */
  ghost predicate Served(cfg: Config, initial: seq<byte>, create: Io, run: seq<Event>,
                         ok: bool, sent: seq<seq<byte>>, bytes: seq<byte>) {
    (ok <==> Creates(initial, (cfg.endAddr - cfg.startAddr) % U32, create)) &&
    if ok then
      sent == Wire(Replies(cfg, InitialState(cfg, initial), run)) &&
      MapOf(bytes) == After(cfg, InitialState(cfg, initial), run).mem &&
      |bytes| == LengthAfter(cfg, INITIAL_SESSION, |InitialBytes(cfg, initial)|, run)
    else sent == [] && ShortFile(cfg, initial, create, bytes)
  }

  /** No request of a run from start-up overruns a buffer. */
  ghost predicate RunFits(cfg: Config, initial: seq<byte>, run: seq<Event>) {
    forall i :: 0 <= i < |run| ==> Fits(cfg, After(cfg, InitialState(cfg, initial), run[..i]), run[i])
  }

  method BootAndServe(cfg: Config, file: MemFile, create: Io, run: seq<Event>)
    returns (ok: bool, sent: seq<seq<byte>>)
    requires RunFits(cfg, file.bytes, run)
    modifies file
    ensures Served(cfg, old(file.bytes), create, run, ok, sent, file.bytes)
  {
    sent := [];
    var s;
    s, ok := Boot(cfg, file, create);
    if ok {
      sent := Serve(s, run);
      ServedLength(cfg, old(file.bytes), run, file.bytes);
    }
  }

  /** The whole server: configure, boot, and serve if the file could be created. */
  method Start(lines: seq<Line>, file: MemFile, create: Io, run: seq<Event>)
    returns (ok: bool, sent: seq<seq<byte>>)
    requires forall i :: 0 <= i < |lines| ==> NUL !in lines[i].name && NUL !in lines[i].value
    requires RunFits(ConfigOf(lines), file.bytes, run)
    modifies file
    ensures Served(ConfigOf(lines), old(file.bytes), create, run, ok, sent, file.bytes)
  {
    var cfg := ReadConfig(lines);
    ok, sent := BootAndServe(cfg, file, create, run);
  }
}
