/** Bytes, fixed-width integers and the C operators the decoders are built from.
    C's unsigned arithmetic is written out: a uint32 sum or shift is taken modulo U32. */
module Bytes {

  const U16 := 0x1_0000
  const U32 := 0x1_0000_0000

  type byte = x: int | 0 <= x < 0x100
  type uint16 = x: int | 0 <= x < 0x1_0000
  type uint32 = x: int | 0 <= x < 0x1_0000_0000

  function Min(a: int, b: int): int {
    if a < b then a else b
  }

  function Max(a: int, b: int): int {
    if a < b then b else a
  }

  function Pow256(n: nat): (p: nat)
    ensures 1 <= p
  {
    if n == 0 then 1 else 256 * Pow256(n - 1)
  }

  /** The powers that occur as bounds of 1 to 4 byte fields. */
  lemma PowerValues()
    ensures Pow256(0) == 1 && Pow256(1) == 0x100 && Pow256(2) == 0x1_0000
    ensures Pow256(3) == 0x100_0000 && Pow256(4) == U32
  {
  }

  lemma {:induction false} PowerMonotone(m: nat, n: nat)
    requires m <= n
    ensures Pow256(m) <= Pow256(n)
  {
    if m < n {
      PowerMonotone(m, n - 1);
    }
  }

  // ---- Big-endian fields

  /** The number a field of bytes denotes, most significant byte first. */
  function BigEndian(s: seq<byte>): (v: nat) {
    if s == [] then 0 else BigEndian(s[..|s| - 1]) * 256 + s[|s| - 1]
  }

  /** The low `width` bytes of a number, most significant byte first. */
  function ToBigEndian(v: nat, width: nat): (s: seq<byte>)
    ensures |s| == width
  {
    if width == 0 then [] else ToBigEndian(v / 256, width - 1) + [v % 256]
  }

  lemma {:induction false} BigEndianBound(s: seq<byte>)
    ensures BigEndian(s) < Pow256(|s|)
  {
    if s != [] {
      BigEndianBound(s[..|s| - 1]);
    }
  }

  /** A field of at most four bytes fits 32 bits. */
  lemma FieldFits(s: seq<byte>)
    requires |s| <= 4
    ensures BigEndian(s) < U32
  {
    BigEndianBound(s);
    PowerMonotone(|s|, 4);
    PowerValues();
  }

  lemma BigEndianSnoc(s: seq<byte>, b: byte)
    ensures BigEndian(s + [b]) == BigEndian(s) * 256 + b
  {
  }

  lemma {:induction false} BigEndianInverse(v: nat, width: nat)
    requires v < Pow256(width)
    ensures BigEndian(ToBigEndian(v, width)) == v
  {
    if width != 0 {
      var front := ToBigEndian(v / 256, width - 1);
      BigEndianInverse(v / 256, width - 1);
      BigEndianSnoc(front, v % 256);
    }
  }

  lemma {:induction false} ToBigEndianInverse(s: seq<byte>)
    ensures ToBigEndian(BigEndian(s), |s|) == s
  {
    if s != [] {
      ToBigEndianInverse(s[..|s| - 1]);
      assert s == s[..|s| - 1] + [s[|s| - 1]];
    }
  }

  // ---- Shift and or

  /** `x` shifted left by `k` bits. */
  function Scale(x: nat, k: nat): nat {
    if k == 0 then x else 2 * Scale(x, k - 1)
  }

  /** C's bitwise `|` on unsigned values, bit by bit. */
  function BitOr(x: nat, y: nat): nat
    decreases x + y
  {
    if x == 0 && y == 0 then 0
    else (if x % 2 == 1 || y % 2 == 1 then 1 else 0) + 2 * BitOr(x / 2, y / 2)
  }

  /** C's `x << 8` on a uint32: the high byte is lost. */
  function ShiftLeft8(x: uint32): uint32 {
    (x * 256) % U32
  }

  lemma {:induction false} BitOrZero(x: nat)
    ensures BitOr(x, 0) == x
  {
    if x != 0 {
      BitOrZero(x / 2);
    }
  }

  lemma {:induction false} BitOrSymmetric(x: nat, y: nat)
    ensures BitOr(x, y) == BitOr(y, x)
    decreases x + y
  {
    if x != 0 || y != 0 {
      BitOrSymmetric(x / 2, y / 2);
    }
  }

  /** Or-ing a value below bit k into one whose low k bits are clear is addition. */
  lemma {:induction false} BitOrBelow(x: nat, b: nat, k: nat)
    requires b < Scale(1, k)
    ensures BitOr(Scale(x, k), b) == Scale(x, k) + b
    decreases k
  {
    if k == 0 {
      BitOrZero(x);
    } else {
      BitOrBelow(x, b / 2, k - 1);
      assert Scale(x, k) / 2 == Scale(x, k - 1);
    }
  }

  lemma ScaleValues(x: nat)
    ensures Scale(x, 6) == 64 * x && Scale(x, 8) == 256 * x
  {
    assert Scale(x, 1) == 2 * x;
    assert Scale(x, 2) == 4 * x;
    assert Scale(x, 3) == 8 * x;
    assert Scale(x, 4) == 16 * x;
    assert Scale(x, 5) == 32 * x;
    assert Scale(x, 6) == 64 * x;
    assert Scale(x, 7) == 128 * x;
  }

  /** One turn of the decode loops: no bit is lost while fewer than four bytes were read. */
  lemma ShiftOr(x: uint32, b: byte)
    requires x < 0x100_0000
    ensures BitOr(ShiftLeft8(x), b) == x * 256 + b
  {
    ScaleValues(x);
    ScaleValues(1);
    BitOrBelow(x, b, 8);
    assert ShiftLeft8(x) == Scale(x, 8);
  }

  /** `sid | 0x40` for a request identifier below 0x40. */
  lemma PositiveSid(sid: byte)
    requires sid < 0x40
    ensures BitOr(sid, 0x40) == sid + 0x40
  {
    ScaleValues(1);
    BitOrBelow(1, sid, 6);
    BitOrSymmetric(sid, 0x40);
  }

  // ---- Zero padding

  function Zeros(n: nat): (s: seq<byte>)
    ensures |s| == n && forall i :: 0 <= i < n ==> s[i] == 0
  {
    seq(n, i => 0)
  }

  /** The first `n` bytes of `s`, continued with zeros when `s` is shorter. */
  function TakePad(s: seq<byte>, n: nat): (r: seq<byte>)
    ensures |r| == n
    ensures forall i :: 0 <= i < n ==> r[i] == if i < |s| then s[i] else 0
  {
    if n <= |s| then s[..n] else s + Zeros(n - |s|)
  }

  lemma SliceOfPrefix(s: seq<byte>, n: nat, i: nat, j: nat)
    requires i <= j <= n <= |s|
    ensures s[..n][i..j] == s[i..j]
  {
  }
}
