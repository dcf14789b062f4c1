/** The reply codec seen from the tester: every reply that is sent can be decoded,
    and its first bytes identify service and outcome. */
module Answers {
  import opened Options
  import opened Bytes
  import opened Services
  import opened Config
  import opened Machine
  import opened Provenance
  import opened Algebra

  function Word(hi: byte, lo: byte): uint16 {
    hi as int * 256 + lo as int
  }

  /** A tester's reading of a message, from its bytes alone. */
  function Interpret(m: seq<byte>): Option<Reply> {
    if |m| == 3 && m[0] == 0x7F then Some(Negative(m[1], m[2]))
    else if |m| == 6 && m[0] == 0x50 then Some(SessionReply(m[1], Word(m[2], m[3]), Word(m[4], m[5])))
    else if |m| >= 3 && m[0] == 0x62 then Some(DidData(Word(m[1], m[2]), m[3..]))
    else if |m| >= 1 && m[0] == 0x63 then Some(AddressData(m[1..]))
    else if |m| == 3 && m[0] == 0x6E then Some(DidWritten(Word(m[1], m[2])))
    else if |m| == 1 && m[0] == 0x7D then Some(AddressWritten)
    else if |m| == 2 && m[0] == 0x7E then Some(Alive)
    else None
  }

  /** Every sent reply decodes to itself: service, outcome, code, identifier,
      timings and data are all recovered. */
  lemma InterpretInvertsEncode(r: Reply)
    requires r != NoReply
    ensures Interpret(Encode(r)) == Some(r)
  {
  }

  /** A service the dispatcher knows. */
  predicate KnownSid(sid: byte) {
    sid == 0x10 || sid == 0x22 || sid == 0x23 || sid == 0x2E || sid == 0x3D || sid == 0x3E
  }

  /** A TesterPresent that asks for no answer. */
  predicate SuppressedPresence(req: seq<byte>) {
    req == [0x3E, 0x80]
  }

  lemma EmptyEncoding(r: Reply)
    ensures Encode(r) == [] <==> r == NoReply
  {
  }

  lemma SuppressionDecodes(cfg: Config, s: byte, req: seq<byte>)
    ensures Decode(cfg, s, req) == Accept(KeepAlive(true)) <==> SuppressedPresence(req)
  {
    if Decode(cfg, s, req) == Accept(KeepAlive(true)) {
      DecodeKeepsService(cfg, s, req);
      assert req == [req[0], req[1]];
    }
    if SuppressedPresence(req) {
      assert |req| == 2 && req[0] == 0x3E && req[1] == 0x80;
    }
  }

  /** Nothing is sent for exactly three kinds of request: an empty one, an unknown
      service, and a suppressed TesterPresent. */
  lemma SilentIff(cfg: Config, st: State, e: Event)
    ensures Encode(Step(cfg, st, e).1) == [] <==>
      e.req == [] || !KnownSid(e.req[0]) || SuppressedPresence(e.req)
  {
    EmptyEncoding(Step(cfg, st, e).1);
    DecodeKeepsService(cfg, st.session, e.req);
    SuppressionDecodes(cfg, st.session, e.req);
  }

  /** The answer to an accepted session request: 50 ms and 5000 ms, or 5000 ms twice
      in the programming session. */
  lemma SessionAnswer(cfg: Config, st: State, e: Event)
    requires SessionAsked(e.req).Some?
    ensures Encode(Step(cfg, st, e).1) ==
      if e.req[1] == 2 then [0x50, 2, 0x13, 0x88, 0x13, 0x88] else [0x50, e.req[1], 0x00, 0x32, 0x13, 0x88]
  {
  }

  /** A positive write by identifier is acknowledged with the identifier's own bytes. */
  lemma DidAcknowledged(cfg: Config, st: State, e: Event)
    requires Step(cfg, st, e).1.DidWritten?
    ensures |e.req| >= 3 && Encode(Step(cfg, st, e).1) == [0x6E] + e.req[1..3]
  {
    DidWrittenMeans(cfg, st, e);
    DidBytes(e.req);
  }

  lemma DidBytes(req: seq<byte>)
    requires |req| >= 3
    ensures Bytes16(DidOf(req)) == req[1..3]
  {
  }

  /** Every other request is answered by 0x7F, its service and a code, or by a message
      opening with its service plus 0x40; session requests get their exact timings and
      positive writes by identifier their identifier back. */
  lemma AnswerOpening(cfg: Config, st: State, e: Event)
    requires Step(cfg, st, e).1 != NoReply
    ensures e.req != []
    ensures var r := Step(cfg, st, e).1;
      if r.Negative? then Encode(r) == [0x7F, e.req[0], r.nrc] && r.nrc != 0
      else Encode(r)[0] as int == e.req[0] as int + 0x40 && Encode(r)[0] != 0x7F
    ensures SessionAsked(e.req).Some? ==>
      (Encode(Step(cfg, st, e).1) ==
       if e.req[1] == 2 then [0x50, 2, 0x13, 0x88, 0x13, 0x88] else [0x50, e.req[1], 0x00, 0x32, 0x13, 0x88])
    ensures Step(cfg, st, e).1.DidWritten? ==>
      |e.req| >= 3 && Encode(Step(cfg, st, e).1) == [0x6E] + e.req[1..3]
  {
    DecodeKeepsService(cfg, st.session, e.req);
    if SessionAsked(e.req).Some? {
      SessionAnswer(cfg, st, e);
    }
    if Step(cfg, st, e).1.DidWritten? {
      DidAcknowledged(cfg, st, e);
    }
  }

  function ServiceOf(cmd: Command): byte {
    match cmd
    case SetSession(_) => 0x10
    case ReadDid(_, _, _) => 0x22
    case ReadAddress(_, _) => 0x23
    case WriteDid(_, _, _) => 0x2E
    case WriteAddress(_, _) => 0x3D
    case KeepAlive(_) => 0x3E
  }

  /** A verdict belongs to the service the request names, and only an empty or
      unknown request has none. */
  lemma DecodeKeepsService(cfg: Config, s: byte, req: seq<byte>)
    ensures var v := Decode(cfg, s, req);
      match v
      case Ignore => req == [] || !KnownSid(req[0])
      case Reject(sid, nrc) => req != [] && sid == req[0] && KnownSid(sid) && nrc != 0
      case Accept(cmd) => req != [] && ServiceOf(cmd) == req[0] && KnownSid(req[0])
  {
  }

  /** Requests the buffers can serve get replies that fit a message. */
  lemma FittingReply(cfg: Config, st: State, e: Event)
    requires Fits(cfg, st, e)
    ensures |Encode(Step(cfg, st, e).1)| <= 4096
  {
  }
}
