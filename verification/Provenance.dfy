/** Where the session and every byte of memory come from: after any run, with any
    file outcomes, both are functions of the requests alone. */
module Provenance {
  import opened Options
  import opened Bytes
  import opened Services
  import opened Memory
  import opened Config
  import opened Machine

  // ---- The session

  /** The session a request asks for, read off its bytes: 0x10 and a type 1 to 4. */
  function SessionAsked(req: seq<byte>): Option<byte> {
    if |req| == 2 && req[0] == 0x10 && 1 <= req[1] <= 4 then Some(req[1]) else None
  }

  /** The session the latest session request of a run asked for, or `s0`. */
  function LastSession(s0: byte, run: seq<Event>): byte {
    if run == [] then s0
    else match SessionAsked(run[|run| - 1].req)
      case Some(s) => s
      case None => LastSession(s0, run[..|run| - 1])
  }

  lemma StepSession(cfg: Config, st: State, e: Event)
    ensures Step(cfg, st, e).0.session ==
      match SessionAsked(e.req) case Some(s) => s case None => st.session
  {
  }

  lemma {:induction false} SessionIsLastAsked(cfg: Config, st: State, run: seq<Event>)
    ensures After(cfg, st, run).session == LastSession(st.session, run)
  {
    if run != [] {
      var front, last := run[..|run| - 1], run[|run| - 1];
      SessionIsLastAsked(cfg, st, front);
      StepSession(cfg, After(cfg, st, front), last);
    }
  }

  ghost predicate Asks(run: seq<Event>, k: int) {
    0 <= k < |run| && SessionAsked(run[k].req).Some?
  }

  /** The session is the one it began with when no session request was accepted,
      and otherwise the value of an accepted one that no other follows. */
  lemma {:induction false} LastSessionWitness(s0: byte, run: seq<Event>) returns (k: int)
    ensures -1 <= k < |run|
    ensures k == -1 ==> LastSession(s0, run) == s0
    ensures 0 <= k ==> SessionAsked(run[k].req) == Some(LastSession(s0, run))
    ensures forall j :: Asks(run, j) ==> j <= k
    ensures LastSession(s0, run) == s0 || 1 <= LastSession(s0, run) <= 4
  {
    if run == [] {
      k := -1;
    } else {
      var n := |run| - 1;
      var front := run[..n];
      if Asks(run, n) {
        k := n;
      } else {
        k := LastSessionWitness(s0, front);
        forall j | Asks(run, j) ensures j <= k {
          assert Asks(front, j);
        }
      }
    }
  }

  // ---- Memory

  /** The write a request performs in session `s`: its address and the bytes that land. */
  ghost function WriteOf(cfg: Config, s: byte, e: Event): Option<(int, seq<byte>)> {
    match Decode(cfg, s, e.req)
    case Accept(WriteDid(_, a, d)) => Some((a, Landed(d, e.io)))
    case Accept(WriteAddress(a, d)) => Some((a, Landed(d, e.io)))
    case _ => None
  }

  /** The byte a request leaves at address `x`, if it writes there. */
  ghost function PutBy(cfg: Config, s: byte, e: Event, x: int): Option<byte> {
    match WriteOf(cfg, s, e)
    case Some((a, d)) => if Covers(a, |d|, x) then Some(d[x - a]) else None
    case None => None
  }

  /** The byte the latest request covering `x` left there. */
  ghost function LastPut(cfg: Config, s0: byte, run: seq<Event>, x: int): Option<byte> {
    if run == [] then None
    else
      var front, last := run[..|run| - 1], run[|run| - 1];
      match PutBy(cfg, LastSession(s0, front), last, x)
      case Some(b) => Some(b)
      case None => LastPut(cfg, s0, front, x)
  }

  ghost function ByteAt(m: Mem, x: int): Option<byte> {
    if x in m then Some(m[x]) else None
  }

  lemma StepMemory(cfg: Config, st: State, e: Event)
    ensures Step(cfg, st, e).0.mem ==
      match WriteOf(cfg, st.session, e)
      case Some((a, d)) => Write(st.mem, a, d)
      case None => st.mem
  {
  }

  /** A nonempty landed write of the run ends above `x`. */
  ghost predicate Reached(cfg: Config, s0: byte, run: seq<Event>, x: int) {
    exists k :: ReachedBy(cfg, s0, run, k, x)
  }

  ghost predicate ReachedBy(cfg: Config, s0: byte, run: seq<Event>, k: int, x: int) {
    0 <= k < |run| && Extends(WriteOf(cfg, LastSession(s0, run[..k]), run[k]), x)
  }

  /** The write creates every missing byte up to its end, so also the one at `x`. */
  ghost predicate Extends(w: Option<(int, seq<byte>)>, x: int) {
    w.Some? && w.value.1 != [] && 0 <= x < w.value.0 + |w.value.1|
  }

  lemma ReachedSnoc(cfg: Config, s0: byte, run: seq<Event>, x: int)
    requires run != []
    ensures var front, last := run[..|run| - 1], run[|run| - 1];
      Reached(cfg, s0, run, x) <==>
      Reached(cfg, s0, front, x) || Extends(WriteOf(cfg, LastSession(s0, front), last), x)
  {
    var n := |run| - 1;
    var front := run[..n];
    assert ReachedBy(cfg, s0, run, n, x) <==> Extends(WriteOf(cfg, LastSession(s0, front), run[n]), x);
    forall k | 0 <= k < n ensures ReachedBy(cfg, s0, run, k, x) <==> ReachedBy(cfg, s0, front, k, x) {
      assert front[..k] == run[..k];
    }
  }

  /** The bytes that exist after a run: the initial ones and those below the end of a write. */
  lemma {:induction false} DomainAfter(cfg: Config, st: State, run: seq<Event>, x: int)
    ensures x in After(cfg, st, run).mem <==> x in st.mem || Reached(cfg, st.session, run, x)
  {
    if run != [] {
      var front, last := run[..|run| - 1], run[|run| - 1];
      DomainAfter(cfg, st, front, x);
      SessionIsLastAsked(cfg, st, front);
      StepMemory(cfg, After(cfg, st, front), last);
      ReachedSnoc(cfg, st.session, run, x);
    }
  }

  /** The value of every byte after a run: the one its latest covering write left, else
      its initial value, else the zero of a hole below the end of some write; an address
      with none of these has no byte. */
  lemma MemoryIsLastPut(cfg: Config, st: State, run: seq<Event>, x: int)
    ensures ByteAt(After(cfg, st, run).mem, x) ==
      match LastPut(cfg, st.session, run, x)
      case Some(b) => Some(b)
      case None =>
        if x in st.mem then Some(st.mem[x])
        else if Reached(cfg, st.session, run, x) then Some(0)
        else None
  {
    LastPutOrOld(cfg, st, run, x);
    DomainAfter(cfg, st, run, x);
  }

  lemma {:induction false} LastPutOrOld(cfg: Config, st: State, run: seq<Event>, x: int)
    ensures match LastPut(cfg, st.session, run, x)
            case Some(b) => ByteAt(After(cfg, st, run).mem, x) == Some(b)
            case None =>
              var now := ByteAt(After(cfg, st, run).mem, x);
              if x in st.mem then now == ByteAt(st.mem, x) else now == None || now == Some(0)
  {
    if run != [] {
      var front, last := run[..|run| - 1], run[|run| - 1];
      LastPutOrOld(cfg, st, front, x);
      SessionIsLastAsked(cfg, st, front);
      StepMemory(cfg, After(cfg, st, front), last);
    }
  }

  ghost predicate Puts(cfg: Config, s0: byte, run: seq<Event>, k: int, x: int) {
    0 <= k < |run| && PutBy(cfg, LastSession(s0, run[..k]), run[k], x).Some?
  }

  /** `LastPut` is the put no later one follows, and is absent when there is none. */
  lemma {:induction false} LastPutWitness(cfg: Config, s0: byte, run: seq<Event>, x: int) returns (k: int)
    ensures -1 <= k < |run|
    ensures k == -1 <==> LastPut(cfg, s0, run, x) == None
    ensures 0 <= k ==>
      LastPut(cfg, s0, run, x) == PutBy(cfg, LastSession(s0, run[..k]), run[k], x)
    ensures forall j :: Puts(cfg, s0, run, j, x) ==> j <= k
  {
    if run == [] {
      k := -1;
    } else {
      var n := |run| - 1;
      var front := run[..n];
      if Puts(cfg, s0, run, n, x) {
        k := n;
      } else {
        k := LastPutWitness(cfg, s0, front, x);
        assert 0 <= k ==> front[..k] == run[..k];
        forall j | Puts(cfg, s0, run, j, x) ensures j <= k {
          assert front[..j] == run[..j];
          assert Puts(cfg, s0, front, j, x);
        }
      }
    }
  }

  /** The data of a positive read reply, if it is one. */
  function ReadData(r: Reply): Option<seq<byte>> {
    match r
    case DidData(_, d) => Some(d)
    case AddressData(d) => Some(d)
    case _ => None
  }

  /** A positive read reply carries the bytes of the addressed range. */
  lemma ReadReply(cfg: Config, st: State, e: Event)
    requires ReadData(Step(cfg, st, e).1).Some?
    ensures Decode(cfg, st.session, e.req).Accept? && Decode(cfg, st.session, e.req).cmd.Reads()
    ensures var cmd, d := Decode(cfg, st.session, e.req).cmd, ReadData(Step(cfg, st, e).1).value;
      Holds(st.mem, cmd.address, cmd.size) && d == Read(st.mem, cmd.address, cmd.size)
  {
  }

  /** The request is an accepted read of `n` bytes whose byte `i` is at address `x`. */
  predicate ReadsByte(cfg: Config, s: byte, req: seq<byte>, n: nat, i: int, x: int) {
    var v := Decode(cfg, s, req);
    v.Accept? && v.cmd.Reads() && v.cmd.size == n && x == v.cmd.address + i
  }

  /** Whatever run came before, each byte of a positive read reply is the byte of the
      latest write covering its address, or the initial byte, or a hole's zero. */
  lemma ReadReturnsLatestWrite(cfg: Config, st: State, run: seq<Event>, e: Event, d: seq<byte>, i: int)
    returns (x: int)
    requires ReadData(Step(cfg, After(cfg, st, run), e).1) == Some(d)
    requires 0 <= i < |d|
    ensures ReadsByte(cfg, LastSession(st.session, run), e.req, |d|, i, x)
    ensures match LastPut(cfg, st.session, run, x)
      case Some(put) => d[i] == put
      case None => d[i] == if x in st.mem then st.mem[x] else 0
  {
    var now := After(cfg, st, run);
    SessionIsLastAsked(cfg, st, run);
    ReadReply(cfg, now, e);
    x := Decode(cfg, now.session, e.req).cmd.address + i;
    assert ByteAt(now.mem, x) == Some(d[i]);
    MemoryIsLastPut(cfg, st, run, x);
  }

  // ---- Write provenance

  /** Request `k` of the run is an accepted write in the extended session that
      transfers at least one byte and ends above `x`; a byte that already existed
      is moreover inside the bytes written. */
  ghost predicate Explains(cfg: Config, st: State, run: seq<Event>, k: int, x: int) {
    0 <= k < |run| &&
    var s := LastSession(st.session, run[..k]);
    s == EXTENDED_SESSION &&
    match WriteOf(cfg, s, run[k])
    case Some((a, d)) =>
      d != [] && x < a + |d| && (x in After(cfg, st, run[..k]).mem ==> a <= x)
    case None => false
  }

  /** If a byte differs between two points of a run, a write between them explains it. */
  lemma {:induction false} ChangedByteHasWriter(cfg: Config, st: State, run: seq<Event>, i: nat, j: nat, x: int)
    returns (k: int)
    requires i <= j <= |run|
    requires ByteAt(After(cfg, st, run[..i]).mem, x) != ByteAt(After(cfg, st, run[..j]).mem, x)
    ensures i <= k < j && Explains(cfg, st, run, k, x)
    decreases j - i
  {
    k := j - 1;
    if ByteAt(After(cfg, st, run[..k]).mem, x) == ByteAt(After(cfg, st, run[..j]).mem, x) {
      k := ChangedByteHasWriter(cfg, st, run, i, j - 1, x);
    } else {
      ChangeExplained(cfg, st, run, k, x);
    }
  }

  lemma ChangeExplained(cfg: Config, st: State, run: seq<Event>, k: nat, x: int)
    requires k < |run|
    requires ByteAt(After(cfg, st, run[..k]).mem, x) != ByteAt(After(cfg, st, run[..k + 1]).mem, x)
    ensures Explains(cfg, st, run, k, x)
  {
    assert run[..k + 1] == run[..k] + [run[k]];
    AfterSnoc(cfg, st, run[..k], run[k]);
    SessionIsLastAsked(cfg, st, run[..k]);
    ChangingStepWrites(cfg, After(cfg, st, run[..k]), run[k], x);
  }

  /** A step that changes a byte is a write in the extended session reaching it. */
  lemma ChangingStepWrites(cfg: Config, st: State, e: Event, x: int)
    requires ByteAt(st.mem, x) != ByteAt(Step(cfg, st, e).0.mem, x)
    ensures st.session == EXTENDED_SESSION && WriteOf(cfg, st.session, e).Some?
    ensures var (a, d) := WriteOf(cfg, st.session, e).value;
      d != [] && x < a + |d| && (x in st.mem ==> a <= x)
  {
    StepMemory(cfg, st, e);
    SessionOnlyGatesWrites(cfg, st.session, e.req);
  }

  /** From the initial session 0, such a write needs an accepted request for the
      extended session before it with no other accepted session request between. */
  lemma WriterFollowsExtendedSession(cfg: Config, st: State, run: seq<Event>, k: int, x: int) returns (j: int)
    requires st.session == INITIAL_SESSION
    requires Explains(cfg, st, run, k, x)
    ensures 0 <= j < k && SessionAsked(run[j].req) == Some(EXTENDED_SESSION)
    ensures forall i :: j < i < k ==> SessionAsked(run[i].req) == None
  {
    j := LastSessionWitness(st.session, run[..k]);
    forall i | j < i < k ensures SessionAsked(run[i].req) == None {
      assert !Asks(run[..k], i);
    }
  }
}
