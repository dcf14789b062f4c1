/** The configuration a running server uses: the memory window and the DID list. */
module Config {
  import opened Bytes

  /** One configured data identifier together with its printed name. */
  datatype Did = Did(name: string, udid: uint16, address: uint32, size: uint16, level: byte)

  /** A slot of the direct index; `EMPTY` is what clearing the table leaves. */
  datatype Slot = Slot(address: uint32, size: uint32, level: byte, valid: bool)

  const EMPTY := Slot(0, 0, 0, false)

  datatype Config = Config(startAddr: uint32, endAddr: uint32, dids: seq<Did>)

  function SlotOf(d: Did): Slot {
    Slot(d.address, d.size, d.level, true)
  }

  /** What scanning the list backwards for `did` finds. */
  function Lookup(dids: seq<Did>, did: uint16): Slot {
    if dids == [] then EMPTY
    else if dids[|dids| - 1].udid == did then SlotOf(dids[|dids| - 1])
    else Lookup(dids[..|dids| - 1], did)
  }

  ghost predicate Defines(dids: seq<Did>, k: int, did: uint16) {
    0 <= k < |dids| && dids[k].udid == did
  }

  ghost predicate IsLast(dids: seq<Did>, k: int, did: uint16) {
    Defines(dids, k, did) && forall j :: Defines(dids, j, did) ==> j <= k
  }

  /** The scan is empty exactly when no entry has the identifier; otherwise it has the
      address, size and level of the entry no later duplicate follows. */
  lemma {:induction false} LookupIsLastDuplicate(dids: seq<Did>, did: uint16) returns (k: int)
    ensures k == -1 ==> Lookup(dids, did) == Slot(0, 0, 0, false) && forall j :: !Defines(dids, j, did)
    ensures k != -1 ==> IsLast(dids, k, did) && Lookup(dids, did).valid
    ensures k != -1 ==> Lookup(dids, did).address == dids[k].address
    ensures k != -1 ==> Lookup(dids, did).size == dids[k].size && Lookup(dids, did).level == dids[k].level
  {
    if dids == [] {
      k := -1;
    } else {
      var n := |dids| - 1;
      var front := dids[..n];
      if Defines(dids, n, did) {
        k := n;
      } else {
        k := LookupIsLastDuplicate(front, did);
        assert forall j :: Defines(dids, j, did) <==> Defines(front, j, did);
      }
    }
  }

  // ---- The range test

  /** The 32-bit test as the server computes it: the sum may wrap. */
  predicate InRange32(cfg: Config, a: uint32, n: uint32) {
    cfg.startAddr <= a && (a + n) % U32 <= cfg.endAddr
  }

  /** What the test is meant to say, over unbounded integers. */
  predicate InWindow(cfg: Config, a: int, n: int) {
    cfg.startAddr <= a && a + n <= cfg.endAddr
  }

  /** The test as arithmetic: the range ends by the end address, or wraps to an end by it. */
  predicate Allowed(cfg: Config, a: int, n: int) {
    cfg.startAddr <= a && (a + n <= cfg.endAddr || U32 <= a + n <= U32 + cfg.endAddr)
  }

  lemma RangeTestAllows(cfg: Config, a: uint32, n: uint32)
    ensures InRange32(cfg, a, n) <==> Allowed(cfg, a, n)
  {
  }

  lemma RangeTestWithoutWrap(cfg: Config, a: uint32, n: uint32)
    requires a + n < U32
    ensures InRange32(cfg, a, n) <==> InWindow(cfg, a, n)
  {
  }

  /** The two tests part on exactly the sums that wrap to a value inside the window. */
  lemma RangeTestDiffers(cfg: Config, a: uint32, n: uint32)
    ensures InRange32(cfg, a, n) != InWindow(cfg, a, n) <==>
      cfg.startAddr <= a && U32 <= a + n <= U32 + cfg.endAddr
  {
  }
}
