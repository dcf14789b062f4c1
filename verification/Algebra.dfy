/** Laws that relate whole requests: erasing inert ones, commuting, repeating and
    overwriting writes, and the agreement of the two ways to read and write. */
module Algebra {
  import opened Options
  import opened Bytes
  import opened Services
  import opened Memory
  import opened Config
  import opened Machine
  import opened Provenance

  // ---- Erasure

  /** The request changes nothing in this session whatever its outcome: it is a
      TesterPresent, a read, an unknown service, or it is rejected by its setup. */
  predicate Inert(cfg: Config, session: byte, e: Event) {
    match Decode(cfg, session, e.req)
    case Accept(cmd) => cmd.KeepAlive? || cmd.Reads()
    case _ => true
  }

  /** These are exactly the requests that neither enter a session nor write. */
  lemma InertIff(cfg: Config, session: byte, e: Event)
    ensures Inert(cfg, session, e) <==> SessionAsked(e.req) == None && WriteOf(cfg, session, e) == None
  {
  }

  lemma InertStep(cfg: Config, st: State, e: Event)
    requires Inert(cfg, st.session, e)
    ensures Step(cfg, st, e).0 == st
  {
  }

  /** The run without its inert requests. */
  function Erase(cfg: Config, s0: byte, run: seq<Event>): seq<Event> {
    if run == [] then []
    else
      var front, last := run[..|run| - 1], run[|run| - 1];
      Erase(cfg, s0, front) + if Inert(cfg, LastSession(s0, front), last) then [] else [last]
  }

  /** The replies of a run at the places erasure keeps. */
  ghost function KeptReplies(cfg: Config, st: State, run: seq<Event>): seq<Reply> {
    if run == [] then []
    else
      var front, last := run[..|run| - 1], run[|run| - 1];
      KeptReplies(cfg, st, front) +
      if Inert(cfg, LastSession(st.session, front), last) then [] else [Replies(cfg, st, run)[|front|]]
  }

  /** Erasing the inert requests changes neither the final state nor the replies to
      the requests that remain, under every assignment of file outcomes. */
  lemma {:induction false} ErasureUnobservable(cfg: Config, st: State, run: seq<Event>)
    ensures After(cfg, st, Erase(cfg, st.session, run)) == After(cfg, st, run)
    ensures Replies(cfg, st, Erase(cfg, st.session, run)) == KeptReplies(cfg, st, run)
  {
    if run != [] {
      var front, last := run[..|run| - 1], run[|run| - 1];
      ErasureUnobservable(cfg, st, front);
      SessionIsLastAsked(cfg, st, front);
      var kept := Erase(cfg, st.session, front);
      if Inert(cfg, LastSession(st.session, front), last) {
        InertStep(cfg, After(cfg, st, front), last);
        assert kept + [] == kept;
        assert KeptReplies(cfg, st, front) + [] == KeptReplies(cfg, st, front);
      } else {
        AfterSnoc(cfg, st, kept, last);
      }
    }
  }

  /** Request `k` enters a session or writes, in the session the ones before it reach. */
  ghost predicate ActsAt(cfg: Config, s0: byte, run: seq<Event>, k: int) {
    0 <= k < |run| &&
    (SessionAsked(run[k].req).Some? || WriteOf(cfg, LastSession(s0, run[..k]), run[k]).Some?)
  }

  ghost predicate AllAct(cfg: Config, s0: byte, run: seq<Event>) {
    forall k :: 0 <= k < |run| ==> ActsAt(cfg, s0, run, k)
  }

  lemma AllActSnoc(cfg: Config, s0: byte, run: seq<Event>, e: Event)
    requires AllAct(cfg, s0, run)
    requires SessionAsked(e.req).Some? || WriteOf(cfg, LastSession(s0, run), e).Some?
    ensures AllAct(cfg, s0, run + [e])
  {
    forall k | 0 <= k < |run| + 1 ensures ActsAt(cfg, s0, run + [e], k) {
      assert (run + [e])[..k] == run[..k];
      assert k == |run| || ActsAt(cfg, s0, run, k);
      assert run[..|run|] == run;
    }
  }

  lemma LastSessionSnoc(s0: byte, run: seq<Event>, e: Event)
    ensures LastSession(s0, run + [e]) ==
      match SessionAsked(e.req) case Some(s) => s case None => LastSession(s0, run)
  {
    assert (run + [e])[..|run|] == run;
  }

  /** What remains holds nothing more to erase: each request kept acts in the session
      reached without the erased ones. */
  lemma {:induction false} ErasureIsComplete(cfg: Config, s0: byte, run: seq<Event>)
    ensures AllAct(cfg, s0, Erase(cfg, s0, run))
    ensures LastSession(s0, Erase(cfg, s0, run)) == LastSession(s0, run)
  {
    if run != [] {
      var front, last := run[..|run| - 1], run[|run| - 1];
      var kept := Erase(cfg, s0, front);
      ErasureIsComplete(cfg, s0, front);
      InertIff(cfg, LastSession(s0, front), last);
      if Inert(cfg, LastSession(s0, front), last) {
        assert kept + [] == kept;
      } else {
        AllActSnoc(cfg, s0, kept, last);
        LastSessionSnoc(s0, kept, last);
      }
    }
  }

  // ---- Writes

  lemma AfterTwo(cfg: Config, st: State, e: Event, f: Event)
    ensures After(cfg, st, [e, f]) == Step(cfg, Step(cfg, st, e).0, f).0
    ensures Replies(cfg, st, [e, f]) == [Step(cfg, st, e).1, Step(cfg, Step(cfg, st, e).0, f).1]
  {
  }

  ghost predicate IsWrite(cfg: Config, st: State, e: Event) {
    WriteOf(cfg, st.session, e).Some?
  }

  /** The reply to a write depends on the request and its outcome, not on memory. */
  lemma WriteReplyIgnoresMemory(cfg: Config, st: State, mem: Mem, e: Event)
    requires IsWrite(cfg, st, e)
    ensures Step(cfg, State(st.session, mem), e).1 == Step(cfg, st, e).1
    ensures Step(cfg, st, e).0.session == st.session
  {
  }

  /** Two accepted writes, by address or by identifier and under any outcomes, whose
      landed bytes do not overlap can be sent in either order. */
  lemma DisjointWritesCommute(cfg: Config, st: State, e: Event, f: Event)
    requires IsWrite(cfg, st, e) && IsWrite(cfg, st, f)
    requires var ((a, d), (b, c)) := (WriteOf(cfg, st.session, e).value, WriteOf(cfg, st.session, f).value);
      a + |d| <= b || b + |c| <= a
    ensures After(cfg, st, [e, f]) == After(cfg, st, [f, e])
    ensures Replies(cfg, st, [e, f]) == [Step(cfg, st, e).1, Step(cfg, st, f).1]
    ensures Replies(cfg, st, [f, e]) == [Step(cfg, st, f).1, Step(cfg, st, e).1]
  {
    var ((a, d), (b, c)) := (WriteOf(cfg, st.session, e).value, WriteOf(cfg, st.session, f).value);
    WriteThenWrite(cfg, st, e, f);
    WriteThenWrite(cfg, st, f, e);
    Memory.WritesCommute(st.mem, a, d, b, c);
  }

  lemma WriteThenWrite(cfg: Config, st: State, e: Event, f: Event)
    requires IsWrite(cfg, st, e) && IsWrite(cfg, st, f)
    ensures var ((a, d), (b, c)) := (WriteOf(cfg, st.session, e).value, WriteOf(cfg, st.session, f).value);
      0 <= a && 0 <= b &&
      After(cfg, st, [e, f]) == State(st.session, Write(Write(st.mem, a, d), b, c))
    ensures Replies(cfg, st, [e, f]) == [Step(cfg, st, e).1, Step(cfg, st, f).1]
  {
    var mid := Step(cfg, st, e).0;
    AfterTwo(cfg, st, e, f);
    StepMemory(cfg, st, e);
    WriteReplyIgnoresMemory(cfg, st, st.mem, e);
    StepMemory(cfg, mid, f);
    WriteReplyIgnoresMemory(cfg, mid, st.mem, f);
    assert st == State(st.session, st.mem);
  }

  /** A later write whose landed bytes cover an earlier one's makes it unobservable;
      a repeated write is the case where both are the same. */
  lemma CoveredWriteUnobservable(cfg: Config, st: State, e: Event, f: Event)
    requires IsWrite(cfg, st, e) && IsWrite(cfg, st, f)
    requires var ((a, d), (b, c)) := (WriteOf(cfg, st.session, e).value, WriteOf(cfg, st.session, f).value);
      b <= a && a + |d| <= b + |c|
    ensures After(cfg, st, [e, f]) == Step(cfg, st, f).0
    ensures Replies(cfg, st, [e, f]) == [Step(cfg, st, e).1, Step(cfg, st, f).1]
  {
    var ((a, d), (b, c)) := (WriteOf(cfg, st.session, e).value, WriteOf(cfg, st.session, f).value);
    WriteThenWrite(cfg, st, e, f);
    LaterWriteCovers(st.mem, a, d, b, c);
    StepMemory(cfg, st, f);
    WriteReplyIgnoresMemory(cfg, st, st.mem, f);
  }

  lemma RepeatedWriteIdempotent(cfg: Config, st: State, e: Event)
    requires IsWrite(cfg, st, e)
    ensures After(cfg, st, [e, e]) == Step(cfg, st, e).0
    ensures Replies(cfg, st, [e, e]) == [Step(cfg, st, e).1, Step(cfg, st, e).1]
  {
    CoveredWriteUnobservable(cfg, st, e, e);
  }

  // ---- Coherence of the services

  /** In every state and under every outcome, reading a range through an identifier
      and reading it by address succeed together and return the same data. */
  lemma ReadServicesAgree(cfg: Config, st: State, byDid: Event, byAddress: Event)
    requires byDid.io == byAddress.io
    requires Decode(cfg, st.session, byDid.req).Accept? && Decode(cfg, st.session, byDid.req).cmd.ReadDid?
    requires Decode(cfg, st.session, byAddress.req).Accept? && Decode(cfg, st.session, byAddress.req).cmd.ReadAddress?
    requires var (c, d) := (Decode(cfg, st.session, byDid.req).cmd, Decode(cfg, st.session, byAddress.req).cmd);
      c.address == d.address && c.size == d.size
    ensures ReadData(Step(cfg, st, byDid).1) == ReadData(Step(cfg, st, byAddress).1)
  {
  }

  function ReadDidRequest(did: uint16): seq<byte> {
    [SID_READ_DID] + Bytes16(did)
  }

  /** A read by address with four-byte fields. */
  function ReadAddressRequest(a: uint32, n: uint32): seq<byte> {
    [SID_READ_ADDRESS, 0x44] + ToBigEndian(a, 4) + ToBigEndian(n, 4)
  }

  lemma ReadDidRequestDecodes(cfg: Config, s: byte, did: uint16)
    ensures Decode(cfg, s, ReadDidRequest(did)) ==
      var slot := Lookup(cfg.dids, did);
      if slot.valid && InRange32(cfg, slot.address, slot.size)
      then Accept(ReadDid(did, slot.address, slot.size)) else Reject(SID_READ_DID, NRC_RANGE)
  {
  }

  lemma ReadAddressRequestDecodes(cfg: Config, s: byte, a: uint32, n: uint32)
    ensures Decode(cfg, s, ReadAddressRequest(a, n)) ==
      if InRange32(cfg, a, n) then Accept(ReadAddress(a, n)) else Reject(SID_READ_ADDRESS, NRC_RANGE)
  {
    var req := ReadAddressRequest(a, n);
    PowerValues();
    assert req[2..6] == ToBigEndian(a, 4) && req[6..10] == ToBigEndian(n, 4);
    BigEndianInverse(a, 4);
    BigEndianInverse(n, 4);
    assert DecodeTarget(req) == Target(a, n, 10);
  }

  lemma DidWrittenMeans(cfg: Config, st: State, e: Event)
    requires Step(cfg, st, e).1.DidWritten?
    ensures |e.req| >= 3 && Step(cfg, st, e).1.did == DidOf(e.req)
    ensures var slot := Lookup(cfg.dids, DidOf(e.req));
      slot.valid && InRange32(cfg, slot.address, slot.size) && 0 < slot.size &&
      Step(cfg, st, e).0.mem == Write(st.mem, slot.address, TakePad(e.req[3..], slot.size))
  {
  }

  /** After a positive write by identifier, reading the identifier and reading its
      address range both return the request's data, padded or cut to its size. */
  lemma WriteDidReadBack(cfg: Config, st: State, e: Event) returns (slot: Slot, data: seq<byte>)
    requires Step(cfg, st, e).1.DidWritten?
    ensures slot == Lookup(cfg.dids, Step(cfg, st, e).1.did)
    ensures |e.req| >= 3 && data == TakePad(e.req[3..], slot.size)
    ensures Step(cfg, Step(cfg, st, e).0, Event(ReadDidRequest(Step(cfg, st, e).1.did), Complete)).1
            == DidData(Step(cfg, st, e).1.did, data)
    ensures Step(cfg, Step(cfg, st, e).0, Event(ReadAddressRequest(slot.address, slot.size), Complete)).1
            == AddressData(data)
  {
    DidWrittenMeans(cfg, st, e);
    var after, did := Step(cfg, st, e).0, DidOf(e.req);
    slot := Lookup(cfg.dids, did);
    data := TakePad(e.req[3..], slot.size);
    ReadBack(st.mem, slot.address, data);
    ReadSlotBack(cfg, after, did, slot, data);
  }

  /** Both read services return the bytes a configured identifier's range holds. */
  lemma ReadSlotBack(cfg: Config, st: State, did: uint16, slot: Slot, data: seq<byte>)
    requires slot == Lookup(cfg.dids, did) && slot.valid && 0 < slot.size
    requires InRange32(cfg, slot.address, slot.size)
    requires Holds(st.mem, slot.address, slot.size) && Read(st.mem, slot.address, slot.size) == data
    ensures Step(cfg, st, Event(ReadDidRequest(did), Complete)).1 == DidData(did, data)
    ensures Step(cfg, st, Event(ReadAddressRequest(slot.address, slot.size), Complete)).1 == AddressData(data)
  {
    ReadDidRequestDecodes(cfg, st.session, did);
    ReadRangeBack(cfg, st, slot.address, data);
  }

  lemma ReadRangeBack(cfg: Config, st: State, a: uint32, data: seq<byte>)
    requires 0 < |data| < U32 && InRange32(cfg, a, |data|)
    requires Holds(st.mem, a, |data|) && Read(st.mem, a, |data|) == data
    ensures Step(cfg, st, Event(ReadAddressRequest(a, |data|), Complete)).1 == AddressData(data)
  {
    ReadAddressRequestDecodes(cfg, st.session, a, |data|);
  }

  lemma AddressWrittenMeans(cfg: Config, st: State, e: Event, a: uint32, data: seq<byte>)
    requires Decode(cfg, st.session, e.req) == Accept(WriteAddress(a, data))
    requires Step(cfg, st, e).1.AddressWritten?
    ensures 0 < |data| < U32 && InRange32(cfg, a, |data|)
    ensures Step(cfg, st, e).0.mem == Write(st.mem, a, data)
  {
  }

  /** After a positive write by address, reading the range by address returns the data. */
  lemma WriteAddressReadBack(cfg: Config, st: State, e: Event, a: uint32, data: seq<byte>)
    requires Decode(cfg, st.session, e.req) == Accept(WriteAddress(a, data))
    requires Step(cfg, st, e).1.AddressWritten?
    ensures |data| < U32
    ensures Step(cfg, Step(cfg, st, e).0, Event(ReadAddressRequest(a, |data|), Complete)).1 == AddressData(data)
  {
    AddressWrittenMeans(cfg, st, e, a, data);
    ReadBack(st.mem, a, data);
    ReadRangeBack(cfg, Step(cfg, st, e).0, a, data);
  }
}
