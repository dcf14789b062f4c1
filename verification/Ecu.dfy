/** The state the handlers share: session, memory file, identifier index and the
    heap their data buffers come from. */
module Ecu {
  import opened Bytes
  import opened Services
  import opened Memory
  import opened Config
  import opened Machine

  /** How many bytes a file lacks to have `usz`. */
  function Missing(bytes: seq<byte>, usz: uint32): nat {
    if |bytes| < usz then usz - |bytes| else 0
  }

  predicate Creates(bytes: seq<byte>, usz: uint32, io: Io) {
    io != Fault && Transferred(io, Missing(bytes, usz)) == Missing(bytes, usz)
  }

  /** Creation succeeds when the file can be opened and has the size, or the whole rest
      is transferred. */
  lemma CreatesIff(bytes: seq<byte>, usz: uint32, io: Io)
    ensures Creates(bytes, usz, io) <==>
      io == Complete || (io.Partial? && (usz <= |bytes| || usz <= |bytes| + io.count))
  {
  }

  /** The memory file. Reads and writes take the outcome of the system call. */
  class MemFile {
    var bytes: seq<byte>

    constructor (initial: seq<byte>)
      ensures bytes == initial
    {
      bytes := initial;
    }

    ghost function Map(): Mem
      reads this
    {
      MapOf(bytes)
    }

    /** `lseek` to `a` and `write` of `t` bytes of a buffer. */
    method WriteAt(a: nat, src: array<byte>, from: nat, t: nat)
      requires 0 < t && from + t <= src.Length
      modifies this
      ensures Map() == Write(old(Map()), a, src[from..from + t])
    {
      var head := if a <= |bytes| then bytes[..a] else bytes + Zeros(a - |bytes|);
      var tail := if a + t <= |bytes| then bytes[a + t..] else [];
      bytes := head + src[from..from + t] + tail;
    }

    /** `lseek` to `a` and `read` of at most `n` bytes into a buffer with room for
        all that the file holds of them. */
    method ReadAt(a: nat, n: nat, dst: array<byte>) returns (t: nat)
      requires n <= dst.Length || !Holds(Map(), a, dst.Length + 1)
      modifies dst
      ensures t <= n && (t == n <==> n == 0 || Holds(Map(), a, n))
      ensures t == n && 0 < n ==> n <= dst.Length && dst[..n] == Read(Map(), a, n)
    {
      t := if a >= |bytes| then 0 else Min(n, |bytes| - a);
      for i := 0 to t
        invariant forall k :: 0 <= k < i ==> dst[k] == bytes[a + k]
      {
        dst[i] := bytes[a + i];
      }
      if t < n {
        assert a + t !in Map();
      }
    }

    /** `create_memfile`: a file shorter than `usz` is extended with the zeros that are
        transferred; it fails on a failed open and on a short write. */
    method Create(usz: uint32, io: Io) returns (rc: int)
      modifies this
      ensures bytes == old(bytes) + Zeros(Transferred(io, Missing(old(bytes), usz)))
      ensures rc == if Creates(old(bytes), usz, io) then 0 else -1
    {
      if io == Fault {
        return -1;
      }
      rc := 0;
      if |bytes| < usz {
        var needed := usz - |bytes|;
        var written := Transferred(io, needed);
        bytes := bytes + Zeros(written);
        if written != needed {
          rc := -1;
        }
      }
    }
  }

  /** The heap, as far as the handlers' data buffers go: `live` are the buffers
      allocated and not yet released. */
  class Heap {
    ghost var live: set<object>

    constructor ()
      ensures live == {}
    {
      live := {};
    }

    method Calloc(n: nat) returns (b: array<byte>)
      modifies this
      ensures fresh(b) && b.Length == n && (forall i :: 0 <= i < n ==> b[i] == 0)
      ensures live == old(live) + {b}
    {
      b := new byte[n](_ => 0);
      live := live + {b};
    }

    /** Releasing needs a buffer that is still live: a second release is an error. */
    method Free(b: array<byte>)
      requires b in live
      modifies this
      ensures live == old(live) - {b}
    {
      live := live - {b};
    }
  }

  class UdsState {
    const cfg: Config
    const file: MemFile
    const heap: Heap
    const didMap: array<Slot>
    var uses: byte

    ghost predicate Valid() {
      didMap.Length == MAX_DID + 1
    }

    /** The index agrees with a backward scan of the list at every identifier. */
    ghost predicate Indexed()
      reads didMap
      requires Valid()
    {
      forall d: uint16 :: didMap[d] == Lookup(cfg.dids, d)
    }

    /** The abstract state this object stands for. */
    ghost function Abs(): State
      reads this, file
    {
      State(uses, file.Map())
    }

    constructor (cfg: Config, file: MemFile)
      ensures Valid() && this.cfg == cfg && this.file == file
      ensures fresh(heap) && fresh(didMap) && heap.live == {}
      ensures uses == INITIAL_SESSION
    {
      this.cfg, this.file := cfg, file;
      heap := new Heap();
      didMap := new Slot[MAX_DID + 1](_ => EMPTY);
      uses := INITIAL_SESSION;
    }
  }
}
