/** What a single step may change, under every file outcome, and how the length of
    the memory file evolves over a run. */
module Faults {
  import opened Options
  import opened Bytes
  import opened Services
  import opened Memory
  import opened Config
  import opened Machine
  import opened Provenance
  import opened Requests

  /** A negative response leaves session and memory alone, except that with NRC 0x22
      a strict prefix of the requested data may have reached the validated address. */
  lemma NegativeLeavesState(cfg: Config, st: State, e: Event)
    requires Step(cfg, st, e).1.Negative?
    ensures Step(cfg, st, e).0.session == st.session
    ensures Step(cfg, st, e).1.nrc != NRC_CONDITIONS ==> Step(cfg, st, e).0 == st
    ensures Step(cfg, st, e).0 != st ==>
      Decode(cfg, st.session, e.req).Accept? && Decode(cfg, st.session, e.req).cmd.Writes() &&
      var cmd := Decode(cfg, st.session, e.req).cmd;
      exists t: nat :: t < |cmd.data| && Step(cfg, st, e).0.mem == Write(st.mem, cmd.address, cmd.data[..t])
  {
  }

  /** An accepted write lies in the configured window exactly when its range sum
      does not wrap: the 32-bit test is all that was checked. */
  lemma AcceptedWriteInWindowIff(cfg: Config, s: byte, req: seq<byte>)
    requires Decode(cfg, s, req).Accept? && Decode(cfg, s, req).cmd.Writes()
    ensures var cmd := Decode(cfg, s, req).cmd;
      InWindow(cfg, cmd.address, |cmd.data|) <==> cmd.address + |cmd.data| < U32
  {
  }

  ghost predicate NonWrapping(cfg: Config, e: Event) {
    match Decode(cfg, EXTENDED_SESSION, e.req)
    case Accept(WriteDid(_, a, d)) => a + |d| < U32
    case Accept(WriteAddress(a, d)) => a + |d| < U32
    case _ => true
  }

  /** Under every outcome, a request whose range sum does not wrap keeps every
      existing byte outside the window; new bytes there are zeros of a hole and lie
      below the window's end. */
  lemma OutsideWindowUntouched(cfg: Config, st: State, e: Event, x: int)
    requires var v := Decode(cfg, st.session, e.req);
      v.Accept? && v.cmd.Writes() ==> v.cmd.address + |v.cmd.data| < 0x1_0000_0000
    requires x < cfg.startAddr || cfg.endAddr <= x
    ensures var after := Step(cfg, st, e).0.mem;
      if x in st.mem then ByteAt(after, x) == ByteAt(st.mem, x)
      else ByteAt(after, x) == None || (x < cfg.endAddr && ByteAt(after, x) == Some(0))
  {
    var v := Decode(cfg, st.session, e.req);
    StepMemory(cfg, st, e);
    if v.Accept? && v.cmd.Writes() {
      AcceptedWriteInWindowIff(cfg, st.session, e.req);
      assert |Landed(v.cmd.data, e.io)| <= |v.cmd.data|;
    }
  }

  /** Without the condition on the sum the claim fails: address 0xFFFFFFFF with two
      bytes wraps to 1, passes the test, and lands outside a window ending at 0xFFFF. */
  lemma WrappedWriteLeavesWindow(st: State)
    requires st.session == EXTENDED_SESSION
    ensures var cfg := Config(0, 0xFFFF, []);
      var req := [0x3D, 0x41, 0xFF, 0xFF, 0xFF, 0xFF, 0x02, 0xAA, 0xBB];
      Decode(cfg, st.session, req) == Accept(WriteAddress(0xFFFF_FFFF, [0xAA, 0xBB])) &&
      ByteAt(Step(cfg, st, Event(req, Complete)).0.mem, 0xFFFF_FFFF) == Some(0xAA)
  {
    var cfg := Config(0, 0xFFFF, []);
    var req: seq<byte> := [0x3D, 0x41, 0xFF, 0xFF, 0xFF, 0xFF, 0x02, 0xAA, 0xBB];
    var address: seq<byte> := [0xFF, 0xFF, 0xFF, 0xFF];
    assert address[..3] == [0xFF, 0xFF, 0xFF] && address[..3][..2] == [0xFF, 0xFF];
    assert address[..3][..2][..1] == [0xFF] && [0xFF][..0] == [];
    assert BigEndian(address[..3][..2]) == 0xFFFF;
    assert BigEndian(address) == 0xFFFF_FFFF && BigEndian([0x02]) == 2;
    assert req == WriteMessage(address, [0x02], [0xAA, 0xBB]);
    MessageAccepted(cfg, address, [0x02], [0xAA, 0xBB]);
    AcceptedWriteStep(cfg, st, Event(req, Complete), 0xFFFF_FFFF, [0xAA, 0xBB]);
    assert Landed([0xAA, 0xBB], Complete) == [0xAA, 0xBB];
  }

  // ---- File length

  /** The length of the file after a run, read off the requests and their outcomes:
      each landed write extends the file to its end. */
  ghost function LengthAfter(cfg: Config, s0: byte, len: nat, run: seq<Event>): nat {
    if run == [] then len
    else
      var front, last := run[..|run| - 1], run[|run| - 1];
      Extended(WriteOf(cfg, LastSession(s0, front), last), LengthAfter(cfg, s0, len, front))
  }

  ghost function Extended(w: Option<(int, seq<byte>)>, len: nat): nat {
    match w
    case Some((a, d)) => if d == [] then len else Max(len, a + |d|)
    case None => len
  }

  lemma StepLength(cfg: Config, st: State, e: Event, len: nat)
    requires Contiguous(st.mem, len)
    ensures Contiguous(Step(cfg, st, e).0.mem, Extended(WriteOf(cfg, st.session, e), len))
  {
    StepMemory(cfg, st, e);
    match WriteOf(cfg, st.session, e)
    case None =>
    case Some((a, d)) => WriteContiguous(st.mem, len, a, d);
  }

  /** The file stays one stretch from 0, of exactly that length, over every run. */
  lemma {:induction false} FileLength(cfg: Config, st: State, run: seq<Event>, len: nat)
    requires Contiguous(st.mem, len)
    ensures Contiguous(After(cfg, st, run).mem, LengthAfter(cfg, st.session, len, run))
  {
    if run != [] {
      var front, last := run[..|run| - 1], run[|run| - 1];
      FileLength(cfg, st, front, len);
      SessionIsLastAsked(cfg, st, front);
      StepLength(cfg, After(cfg, st, front), last, LengthAfter(cfg, st.session, len, front));
    }
  }

  ghost predicate AllNonWrapping(cfg: Config, run: seq<Event>) {
    forall i :: 0 <= i < |run| ==> NonWrapping(cfg, run[i])
  }

  lemma NonWrappingEnd(cfg: Config, s: byte, e: Event, len: nat)
    requires NonWrapping(cfg, e)
    ensures Extended(WriteOf(cfg, s, e), len) <= Max(len, cfg.endAddr)
  {
    SessionOnlyGatesWrites(cfg, s, e.req);
    if WriteOf(cfg, s, e).Some? {
      AcceptedWriteInWindowIff(cfg, s, e.req);
    }
  }

  /** The file never shrinks. When no write wraps it never grows past the larger of its
      initial length and the end address, so a file that reaches the end keeps its length. */
  lemma {:induction false} LengthBounds(cfg: Config, s0: byte, len: nat, run: seq<Event>)
    ensures len <= LengthAfter(cfg, s0, len, run)
    ensures AllNonWrapping(cfg, run) ==> LengthAfter(cfg, s0, len, run) <= Max(len, cfg.endAddr)
  {
    if run != [] {
      var front, last := run[..|run| - 1], run[|run| - 1];
      LengthBounds(cfg, s0, len, front);
      if AllNonWrapping(cfg, run) {
        NonWrappingEnd(cfg, LastSession(s0, front), last, LengthAfter(cfg, s0, len, front));
      }
    }
  }

  /** An accepted, nonempty read whose range sum does not wrap. */
  predicate CleanRead(cfg: Config, s: byte, req: seq<byte>) {
    var v := Decode(cfg, s, req);
    v.Accept? && v.cmd.Reads() && 0 < v.cmd.size && v.cmd.address + v.cmd.size < U32
  }

  /** Every such read is answered with data when the file access is fault-free. */
  ghost predicate ReadsAnswered(cfg: Config, st: State) {
    forall req: seq<byte> :: CleanRead(cfg, st.session, req) ==> ReadData(Step(cfg, st, Event(req, Complete)).1).Some?
  }

  /** Once the file reaches the end address, such reads are answered after every run. */
  lemma ReadsComplete(cfg: Config, st: State, run: seq<Event>, len: nat)
    requires Contiguous(st.mem, len) && cfg.endAddr <= len
    ensures ReadsAnswered(cfg, After(cfg, st, run))
  {
    var now, len' := After(cfg, st, run), LengthAfter(cfg, st.session, len, run);
    FileLength(cfg, st, run, len);
    LengthBounds(cfg, st.session, len, run);
    forall req: seq<byte> | CleanRead(cfg, now.session, req)
      ensures ReadData(Step(cfg, now, Event(req, Complete)).1).Some?
    {
      CleanReadEnd(cfg, now.session, req);
      ReadSucceedsIff(cfg, now, Event(req, Complete), len');
    }
  }

  lemma CleanReadEnd(cfg: Config, s: byte, req: seq<byte>)
    requires CleanRead(cfg, s, req)
    ensures var cmd := Decode(cfg, s, req).cmd; cfg.startAddr <= cmd.address && cmd.address + cmd.size <= cfg.endAddr
  {
    var cmd := Decode(cfg, s, req).cmd;
    RangeTestWithoutWrap(cfg, cmd.address, cmd.size);
  }

  /** A transfer from a file of known length succeeds exactly when it is nonempty, done in
      full and ends at or below the end of the file. */
  lemma FetchedIff(m: Mem, len: nat, a: nat, n: nat, io: Io)
    requires Contiguous(m, len)
    ensures Fetched(m, a, n, io) <==> 0 < n && Transferred(io, n) == n && a + n <= len
  {
    if 0 < n && Holds(m, a, n) {
      assert a + n - 1 in m;
    }
  }

  /** For a file of any length, an accepted read succeeds exactly when it is nonempty,
      transferred in full and ends at or below the end of the file. */
  lemma ReadSucceedsIff(cfg: Config, st: State, e: Event, len: nat)
    requires Contiguous(st.mem, len)
    requires Decode(cfg, st.session, e.req).Accept? && Decode(cfg, st.session, e.req).cmd.Reads()
    ensures var cmd := Decode(cfg, st.session, e.req).cmd;
      ReadData(Step(cfg, st, e).1).Some? <==>
      0 < cmd.size && Transferred(e.io, cmd.size) == cmd.size && cmd.address + cmd.size <= len
  {
    var cmd := Decode(cfg, st.session, e.req).cmd;
    FetchedIff(st.mem, len, cmd.address, cmd.size, e.io);
  }
}
