/** The memory file seen as a finite map from address to byte, and the effect of
    the reads and writes the server performs on it. */
module Memory {
  import opened Bytes
  import opened Services

  type Mem = map<int, byte>

  /** Every address of [a, a + n) is backed by a byte. */
  ghost predicate Holds(m: Mem, a: int, n: nat) {
    forall i :: a <= i < a + n ==> i in m
  }

  /** The backed addresses are exactly [0, len): what a file of that length gives. */
  ghost predicate Contiguous(m: Mem, len: nat) {
    forall i :: i in m <==> 0 <= i < len
  }

  /** The map a file's bytes stand for. */
  ghost function MapOf(bytes: seq<byte>): (m: Mem)
    ensures Contiguous(m, |bytes|) && forall i :: 0 <= i < |bytes| ==> m[i] == bytes[i]
  {
    map i | 0 <= i < |bytes| :: bytes[i]
  }

  ghost function Read(m: Mem, a: int, n: nat): (d: seq<byte>)
    requires Holds(m, a, n)
    ensures |d| == n && forall i :: 0 <= i < n ==> d[i] == m[a + i]
  {
    seq(n, i requires 0 <= i < n => m[a + i])
  }

  ghost function Below(n: nat): (s: set<int>)
    ensures forall x :: x in s <==> 0 <= x < n
  {
    if n == 0 then {} else Below(n - 1) + {n - 1}
  }

  ghost predicate Covers(a: int, n: nat, x: int) {
    a <= x < a + n
  }

  /** Writing `d` at `a`. Addresses below the end of the write that had no byte
      become zero: seeking past the end of a file and writing leaves a hole. */
  ghost function Write(m: Mem, a: nat, d: seq<byte>): (r: Mem)
    ensures d == [] ==> r == m
    ensures d != [] ==> forall x :: x in r <==> x in m || 0 <= x < a + |d|
    ensures forall x :: x in r ==>
      r[x] == if Covers(a, |d|, x) then d[x - a] else if x in m then m[x] else 0
  {
    if d == [] then m
    else
      map x | x in m.Keys + Below(a + |d|) ::
        if a <= x < a + |d| then d[x - a] else if x in m then m[x] else 0
  }

  /** The bytes that reach the file when `d` is written under outcome `io`. */
  ghost function Landed(d: seq<byte>, io: Io): (r: seq<byte>)
    ensures r <= d
  {
    d[..Transferred(io, |d|)]
  }

  /** Success is reported for a nonempty, complete transfer only. */
  ghost predicate Stored(d: seq<byte>, io: Io) {
    d != [] && Landed(d, io) == d
  }

  ghost predicate Fetched(m: Mem, a: int, n: nat, io: Io) {
    0 < n && Transferred(io, n) == n && Holds(m, a, n)
  }

  /** A read of `n` bytes brings at most `room`: that many are asked for, or the
      file has no more. */
  ghost predicate ReadFits(m: Mem, a: int, n: nat, room: nat, io: Io) {
    Transferred(io, n) <= room || !Holds(m, a, room + 1)
  }

  // ---- Laws of writes

  lemma WritesCommute(m: Mem, a: nat, d: seq<byte>, b: nat, e: seq<byte>)
    requires a + |d| <= b || b + |e| <= a
    ensures Write(Write(m, a, d), b, e) == Write(Write(m, b, e), a, d)
  {
  }

  lemma LaterWriteCovers(m: Mem, a: nat, d: seq<byte>, b: nat, e: seq<byte>)
    requires b <= a && a + |d| <= b + |e|
    ensures Write(Write(m, a, d), b, e) == Write(m, b, e)
  {
  }

  lemma ReadBack(m: Mem, a: nat, d: seq<byte>)
    ensures Holds(Write(m, a, d), a, |d|) && Read(Write(m, a, d), a, |d|) == d
  {
  }

  lemma WriteContiguous(m: Mem, len: nat, a: nat, d: seq<byte>)
    requires Contiguous(m, len)
    ensures Contiguous(Write(m, a, d), if d == [] then len else Max(len, a + |d|))
  {
  }

  lemma LengthUnique(m: Mem, len: nat, len': nat)
    requires Contiguous(m, len) && Contiguous(m, len')
    ensures len == len'
  {
    assert len !in m && len' !in m;
  }
}
