/** The request codec seen from the tester: what an encoded write means to the
    server, and what every accepted write looked like. */
module Requests {
  import opened Bytes
  import opened Services
  import opened Config
  import opened Machine

  /** A write of `data` at `a` with `aw`-byte address and `sw`-byte size fields. */
  function WriteAddressRequest(aw: nat, sw: nat, a: nat, data: seq<byte>): (req: seq<byte>)
    requires 1 <= aw <= 4 && 1 <= sw <= 4
    ensures |req| == 2 + aw + sw + |data|
  {
    WriteMessage(ToBigEndian(a, aw), ToBigEndian(|data|, sw), data)
  }

  function WriteMessage(address: seq<byte>, size: seq<byte>, rest: seq<byte>): (req: seq<byte>)
    requires 1 <= |address| <= 4 && 1 <= |size| <= 4
    ensures |req| == 2 + |address| + |size| + |rest|
  {
    [SID_WRITE_ADDRESS, |address| * 16 + |size|] + address + size + rest
  }

  lemma MessageLayout(address: seq<byte>, size: seq<byte>, rest: seq<byte>)
    requires 1 <= |address| <= 4 && 1 <= |size| <= 4
    ensures var req := WriteMessage(address, size, rest);
      req[0] == SID_WRITE_ADDRESS && req[1] / 16 == |address| && req[1] % 16 == |size| &&
      req[2..2 + |address|] == address &&
      req[2 + |address|..2 + |address| + |size|] == size &&
      req[2 + |address| + |size|..] == rest
  {
  }

  /** A write request whose size sum stays below 2^32, in the decoder's terms. */
  predicate SizeSumFits(req: seq<byte>) {
    2 <= |req| && DecodeTarget(req).Target? && DecodeTarget(req).offset + DecodeTarget(req).size < U32
  }

  lemma TargetOfMessage(address: seq<byte>, size: seq<byte>, rest: seq<byte>)
    requires 1 <= |address| <= 4 && 1 <= |size| <= 4
    ensures BigEndian(address) < U32 && BigEndian(size) < U32
    ensures DecodeTarget(WriteMessage(address, size, rest)) ==
            Target(BigEndian(address), BigEndian(size), 2 + |address| + |size|)
  {
    FieldFits(address);
    FieldFits(size);
    MessageLayout(address, size, rest);
  }

  /** A write with an allowed range and all its data present is accepted. */
  lemma MessageAccepted(cfg: Config, address: seq<byte>, size: seq<byte>, data: seq<byte>)
    requires 1 <= |address| <= 4 && 1 <= |size| <= 4
    requires BigEndian(size) == |data|
    requires BigEndian(address) < U32 && |data| < U32 && InRange32(cfg, BigEndian(address), |data|)
    ensures Decode(cfg, EXTENDED_SESSION, WriteMessage(address, size, data)) ==
            Accept(WriteAddress(BigEndian(address), data))
  {
    TargetOfMessage(address, size, data);
    MessageLayout(address, size, data);
    assert TakePad(data, |data|) == data;
  }

  /** Round trip: for all field widths, in the extended session, an encoded write
      with its range allowed decodes to exactly its address and data. */
  lemma WriteRequestRoundTrip(cfg: Config, aw: nat, sw: nat, a: uint32, data: seq<byte>)
    requires 1 <= aw <= 4 && 1 <= sw <= 4 && a < Pow256(aw) && |data| < Pow256(sw)
    requires |data| < U32 && InRange32(cfg, a, |data|)
    ensures Decode(cfg, EXTENDED_SESSION, WriteAddressRequest(aw, sw, a, data)) == Accept(WriteAddress(a, data))
  {
    var address, size := ToBigEndian(a, aw), ToBigEndian(|data|, sw);
    BigEndianInverse(a, aw);
    BigEndianInverse(|data|, sw);
    MessageAccepted(cfg, address, size, data);
  }

  /** The same for a write by identifier: the data reaches the address of the last entry
      with the identifier, zero-padded or cut to that entry's size. */
  lemma WriteDidRequestRoundTrip(cfg: Config, k: int, did: uint16, data: seq<byte>)
    requires IsLast(cfg.dids, k, did) && Allowed(cfg, cfg.dids[k].address, cfg.dids[k].size)
    ensures var d := cfg.dids[k];
      Decode(cfg, 3, [0x2E, did / 256, did % 256] + data) ==
        Accept(WriteDid(did, d.address,
          if d.size <= |data| then data[..d.size] else data + seq(d.size - |data|, i => 0)))
  {
    var found := LookupIsLastDuplicate(cfg.dids, did);
    assert Defines(cfg.dids, k, did) && found == k;
    RangeTestAllows(cfg, cfg.dids[k].address, cfg.dids[k].size);
    assert ([0x2E, did / 256, did % 256] + data)[3..] == data;
    TakePadForm(data, cfg.dids[k].size);
  }

  lemma TakePadForm(data: seq<byte>, n: nat)
    ensures TakePad(data, n) == if n <= |data| then data[..n] else data + seq(n - |data|, i => 0)
  {
  }

  /** What accepting a write says about its fields. */
  lemma AcceptedWrite(cfg: Config, s: byte, req: seq<byte>)
    requires Decode(cfg, s, req).Accept? && Decode(cfg, s, req).cmd.WriteAddress?
    ensures 2 <= |req| && req[0] == SID_WRITE_ADDRESS && DecodeTarget(req).Target?
    ensures var t := DecodeTarget(req);
      InRange32(cfg, t.address, t.size) && (t.offset + t.size) % U32 <= |req| &&
      Decode(cfg, s, req).cmd == WriteAddress(t.address, TakePad(req[t.offset..], t.size))
  {
  }

  /** A message whose fields decode to `t` is the encoding of what `t` says. */
  lemma EncodingOfTarget(req: seq<byte>) returns (aw: nat, sw: nat, data: seq<byte>, tail: seq<byte>)
    requires SizeSumFits(req) && req[0] == SID_WRITE_ADDRESS
    requires DecodeTarget(req).offset + DecodeTarget(req).size <= |req|
    ensures 1 <= aw <= 4 && 1 <= sw <= 4
    ensures data == TakePad(req[DecodeTarget(req).offset..], DecodeTarget(req).size)
    ensures req == WriteAddressRequest(aw, sw, DecodeTarget(req).address, data) + tail
  {
    aw, sw := req[1] / 16, req[1] % 16;
    var offset, n := 2 + aw + sw, DecodeTarget(req).size;
    var address, size := req[2..2 + aw], req[2 + aw..offset];
    data, tail := req[offset..offset + n], req[offset + n..];
    MessageOfParts(req, address, size, data + tail);
    MessageAppend(address, size, data, tail);
    MessageIsRequest(address, size, data);
  }

  lemma MessageIsRequest(address: seq<byte>, size: seq<byte>, data: seq<byte>)
    requires 1 <= |address| <= 4 && 1 <= |size| <= 4 && BigEndian(size) == |data|
    ensures WriteMessage(address, size, data) == WriteAddressRequest(|address|, |size|, BigEndian(address), data)
  {
    ToBigEndianInverse(address);
    ToBigEndianInverse(size);
  }

  lemma MessageAppend(address: seq<byte>, size: seq<byte>, data: seq<byte>, tail: seq<byte>)
    requires 1 <= |address| <= 4 && 1 <= |size| <= 4
    ensures WriteMessage(address, size, data + tail) == WriteMessage(address, size, data) + tail
  {
  }

  lemma MessageOfParts(req: seq<byte>, address: seq<byte>, size: seq<byte>, rest: seq<byte>)
    requires 2 <= |req| && req[0] == SID_WRITE_ADDRESS
    requires 1 <= |address| <= 4 && 1 <= |size| <= 4 && req[1] as int == |address| * 16 + |size|
    requires |req| == 2 + |address| + |size| + |rest|
    requires address == req[2..2 + |address|] && size == req[2 + |address|..2 + |address| + |size|]
    requires rest == req[2 + |address| + |size|..]
    ensures req == WriteMessage(address, size, rest)
  {
  }

  /** Conversely, every accepted write whose size sum does not wrap is such an
      encoding followed by ignored bytes. */
  lemma AcceptedWriteIsEncoding(cfg: Config, s: byte, req: seq<byte>) returns (aw: nat, sw: nat, tail: seq<byte>)
    requires Decode(cfg, s, req).Accept? && Decode(cfg, s, req).cmd.WriteAddress?
    requires SizeSumFits(req)
    ensures 1 <= aw <= 4 && 1 <= sw <= 4
    ensures var cmd := Decode(cfg, s, req).cmd; req == WriteAddressRequest(aw, sw, cmd.address, cmd.data) + tail
  {
    AcceptedWrite(cfg, s, req);
    var data;
    aw, sw, data, tail := EncodingOfTarget(req);
  }

  /** The address and size fields are read alike by both services: an accepted write
      is, with the service byte exchanged, an accepted read of the same range. */
  lemma AcceptedWriteIsReadable(cfg: Config, s: byte, s': byte, req: seq<byte>)
    requires Decode(cfg, s, req).Accept? && Decode(cfg, s, req).cmd.WriteAddress?
    ensures var cmd := Decode(cfg, s, req).cmd;
      |cmd.data| < U32 &&
      Decode(cfg, s', [SID_READ_ADDRESS] + req[1..]) == Accept(ReadAddress(cmd.address, |cmd.data|))
  {
    AcceptedWrite(cfg, s, req);
    SameTarget(req, [SID_READ_ADDRESS] + req[1..]);
  }

  /** The fields are a function of the bytes after the first that they span. */
  lemma SameTarget(req: seq<byte>, other: seq<byte>)
    requires 2 <= |req| <= |other| && forall i :: 1 <= i < |req| ==> req[i] == other[i]
    requires DecodeTarget(req).Target?
    ensures DecodeTarget(other) == DecodeTarget(req)
  {
    var aw, sw := req[1] / 16, req[1] % 16;
    assert req[2..2 + aw] == other[2..2 + aw];
    assert req[2 + aw..2 + aw + sw] == other[2 + aw..2 + aw + sw];
  }

  /** The slice of an accepted write lies inside the message, and bytes after it
      change neither the verdict nor the parameters. */
  lemma TrailingBytesIgnored(cfg: Config, s: byte, req: seq<byte>, tail: seq<byte>)
    requires Decode(cfg, s, req).Accept? && Decode(cfg, s, req).cmd.WriteAddress?
    requires SizeSumFits(req)
    ensures DecodeTarget(req).offset + DecodeTarget(req).size <= |req|
    ensures Decode(cfg, s, req + tail) == Decode(cfg, s, req)
  {
    AcceptedWrite(cfg, s, req);
    SameTarget(req, req + tail);
    var offset, n := DecodeTarget(req).offset, DecodeTarget(req).size;
    assert TakePad(req[offset..], n) == TakePad((req + tail)[offset..], n);
  }

  /** The slice of an accepted write lies inside the request exactly when its size
      sum does not wrap: the 32-bit length test is all that was checked. */
  lemma SliceInRequestIff(cfg: Config, s: byte, req: seq<byte>)
    requires |req| <= MAX_MESSAGE_SIZE
    requires Decode(cfg, s, req).Accept? && Decode(cfg, s, req).cmd.WriteAddress?
    ensures DecodeTarget(req).offset + DecodeTarget(req).size <= |req| <==> SizeSumFits(req)
  {
    AcceptedWrite(cfg, s, req);
  }

  /** A request whose size sum wraps to 0: ten bytes are accepted as a write of
      2^32 - 10 bytes of data, none of which the request has. */
  lemma WrappedSizeIsAccepted()
    ensures var cfg := Config(0, 0xFFFF, []);
      var req := [0x3D, 0x44, 0x00, 0x00, 0x00, 0x0A, 0xFF, 0xFF, 0xFF, 0xF6];
      Decode(cfg, EXTENDED_SESSION, req).Accept? &&
      DecodeTarget(req) == Target(0x0A, 0xFFFF_FFF6, 10) && !SizeSumFits(req)
  {
    var cfg := Config(0, 0xFFFF, []);
    var req: seq<byte> := [0x3D, 0x44, 0x00, 0x00, 0x00, 0x0A, 0xFF, 0xFF, 0xFF, 0xF6];
    FourBytes(req[2..6]);
    FourBytes(req[6..10]);
    assert DecodeTarget(req) == Target(0x0A, 0xFFFF_FFF6, 10);
    assert InRange32(cfg, 0x0A, 0xFFFF_FFF6);
  }

  lemma FourBytes(s: seq<byte>)
    requires |s| == 4
    ensures BigEndian(s) == ((s[0] as int * 256 + s[1] as int) * 256 + s[2] as int) * 256 + s[3] as int
  {
    assert s == [] + [s[0]] + [s[1]] + [s[2]] + [s[3]];
    BigEndianSnoc([], s[0]);
    BigEndianSnoc([s[0]], s[1]);
    BigEndianSnoc([s[0], s[1]], s[2]);
    BigEndianSnoc([s[0], s[1], s[2]], s[3]);
  }

  /** Bounds on the sizes in the request that suffice, in every state and under every
      outcome, for its copies to stay inside the buffers. */
  predicate Bounded(cfg: Config, req: seq<byte>) {
    |req| <= 4096 &&
    match Decode(cfg, EXTENDED_SESSION, req)
    case Accept(ReadAddress(_, n)) => n <= 4095
    case Accept(ReadDid(_, _, n)) => n <= 4093
    case Accept(WriteDid(_, _, d)) => |d| <= 4093
    case Accept(WriteAddress(_, _)) => SizeSumFits(req)
    case _ => true
  }

  lemma BoundedRequestFits(cfg: Config, st: State, e: Event)
    requires Bounded(cfg, e.req)
    ensures Fits(cfg, st, e)
  {
    SessionOnlyGatesWrites(cfg, st.session, e.req);
    var v := Decode(cfg, st.session, e.req);
    if v.Accept? && v.cmd.WriteAddress? {
      AcceptedWrite(cfg, st.session, e.req);
    }
  }

  /** The condition on the size sum is what a caller can check: it fails only for
      a four-byte size field within ten of 2^32. */
  lemma SizeSumWraps(req: seq<byte>)
    requires 2 <= |req| && DecodeTarget(req).Target?
    ensures !SizeSumFits(req) ==> req[1] % 16 == 4 && U32 - 10 <= DecodeTarget(req).size
  {
    var aw, sw := req[1] / 16, req[1] % 16;
    NarrowField(req[2 + aw..2 + aw + sw]);
  }

  lemma NarrowField(s: seq<byte>)
    ensures |s| <= 3 ==> BigEndian(s) < 0x100_0000
  {
    if |s| <= 3 {
      BigEndianBound(s);
      PowerMonotone(|s|, 3);
      PowerValues();
    }
  }

  /** The range sum cannot wrap when both fields are at most three bytes wide, nor for
      an identifier whose address leaves room for a 16-bit size. */
  lemma NarrowRequestsDoNotWrap(cfg: Config, req: seq<byte>)
    requires 2 <= |req| && DecodeTarget(req).Target?
    requires req[1] / 16 <= 3 && req[1] % 16 <= 3
    ensures var t := DecodeTarget(req);
      t.address + t.size < U32 && (InRange32(cfg, t.address, t.size) <==> InWindow(cfg, t.address, t.size))
  {
    var aw, sw := req[1] / 16, req[1] % 16;
    NarrowField(req[2..2 + aw]);
    NarrowField(req[2 + aw..2 + aw + sw]);
    RangeTestWithoutWrap(cfg, DecodeTarget(req).address, DecodeTarget(req).size);
  }

  lemma {:induction false} LowDidsDoNotWrap(cfg: Config, did: uint16)
    requires forall k :: 0 <= k < |cfg.dids| ==> cfg.dids[k].address <= U32 - U16
    ensures var slot := Lookup(cfg.dids, did);
      slot.address + slot.size < U32 &&
      (InRange32(cfg, slot.address, slot.size) <==> InWindow(cfg, slot.address, slot.size))
    decreases |cfg.dids|
  {
    if cfg.dids != [] && cfg.dids[|cfg.dids| - 1].udid != did {
      LowDidsDoNotWrap(cfg.(dids := cfg.dids[..|cfg.dids| - 1]), did);
    }
  }
}
