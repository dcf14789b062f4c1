/** Range test and file access shared by the handlers, and the rebuilt DID index. */
module Utils {
  import opened Bytes
  import opened Services
  import opened Memory
  import opened Config
  import opened Ecu

  /** `check_memrange`: the window test for a sum below 2^32, and the test of the
      wrapped end otherwise. */
  method CheckMemrange(cfg: Config, a: uint32, n: uint32) returns (ok: bool)
    ensures a + n < U32 ==> (ok <==> InWindow(cfg, a, n))
    ensures U32 <= a + n ==> (ok <==> cfg.startAddr <= a && a + n - U32 <= cfg.endAddr)
    ensures ok <==> InRange32(cfg, a, n)
  {
    var sum: uint32 := (a + n) % U32;
    ok := cfg.startAddr <= a && sum <= cfg.endAddr;
  }

  /** `write_memory` of the data `d` that starts at `from`: the byte count, or -1 when
      nothing was asked for or the transfer was not complete; the bytes that landed
      stay. Only the bytes transferred need to lie in the buffer. */
  method WriteMemory(file: MemFile, a: uint32, n: nat, src: array<byte>, from: nat, io: Io, ghost d: seq<byte>)
    returns (rc: int)
    requires |d| == n && from + Transferred(io, n) <= src.Length
    requires src[from..from + Transferred(io, n)] == Landed(d, io)
    modifies file
    ensures file.Map() == Write(old(file.Map()), a, Landed(d, io))
    ensures rc == if Stored(d, io) then n else -1
  {
    if n == 0 {
      return -1;
    }
    if io == Fault {
      return -1;
    }
    var written := Transferred(io, n);
    if written != 0 {
      file.WriteAt(a, src, from, written);
    }
    if written != n {
      return -1;
    }
    rc := written;
  }

  /** `read_memory`: the byte count with the bytes in the buffer, or -1. */
  method ReadMemory(file: MemFile, a: uint32, n: nat, dst: array<byte>, io: Io) returns (rc: int)
    requires ReadFits(file.Map(), a, n, dst.Length, io)
    modifies dst
    ensures rc == if Fetched(file.Map(), a, n, io) then n else -1
    ensures rc != -1 ==> n <= dst.Length && dst[..n] == Read(file.Map(), a, n)
  {
    if n == 0 {
      return -1;
    }
    if io == Fault {
      return -1;
    }
    var asked := Transferred(io, n);
    var got := file.ReadAt(a, asked, dst);
    if got != n {
      return -1;
    }
    rc := got;
  }

  /** `init_mapping`: after it, every slot is what a backward scan of the list finds. */
  method InitMapping(didMap: array<Slot>, dids: seq<Did>)
    requires didMap.Length == MAX_DID + 1
    modifies didMap
    ensures forall d: uint16 :: didMap[d] == Lookup(dids, d)
  {
    for i := 0 to didMap.Length
      invariant forall k :: 0 <= k < i ==> didMap[k] == EMPTY
    {
      didMap[i] := EMPTY;
    }
    for i := 0 to |dids|
      invariant forall d: uint16 :: didMap[d] == Lookup(dids[..i], d)
    {
      assert dids[..i + 1][..i] == dids[..i];
      if dids[i].udid <= MAX_DID {
        didMap[dids[i].udid] := Slot(dids[i].address, dids[i].size, dids[i].level, true);
      }
    }
    assert dids[..|dids|] == dids;
  }
}
