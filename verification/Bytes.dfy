/** Bytes, fixed-width big-endian numbers, and cutting a sequence into pieces of one size. */
module Bytes {
  type byte = x: int | 0 <= x < 256

  type bytes = seq<byte>

  const TWO_TO_THE_32: int := 0x1_0000_0000
  const TWO_TO_THE_64: int := 0x1_0000_0000_0000_0000

  type uint64 = x: int | 0 <= x < TWO_TO_THE_64

  function Min(a: int, b: int): int {
    if a < b then a else b
  }

  // ---------- Bytes of an integer ----------

  /** The integer with its low 8 * i bits shifted out. */
  function ShiftBytes(x: nat, i: nat): nat {
    if i == 0 then x else ShiftBytes(x / 256, i - 1)
  }

  /** Byte i of x, counted from the least significant one. */
  function ByteOf(x: nat, i: nat): byte {
    ShiftBytes(x, i) % 256
  }

  /** Exclusive or of the low n bits. */
  function XorBits(a: nat, b: nat, n: nat): (x: nat)
    ensures x < Pow2(n)
  {
    if n == 0 then 0 else (if a % 2 == b % 2 then 0 else 1) + 2 * XorBits(a / 2, b / 2, n - 1)
  }

  /** Go's ^ on bytes. */
  function Xor(a: byte, b: byte): byte {
    assert Pow2(8) == 256 by { assert Pow2(4) == 16; }
    XorBits(a, b, 8)
  }

  function Pow2(n: nat): nat {
    if n == 0 then 1 else 2 * Pow2(n - 1)
  }

  lemma {:induction false} XorBitsCancels(a: nat, b: nat, c: nat, n: nat)
    requires b < Pow2(n) && c < Pow2(n)
    requires XorBits(a, b, n) == XorBits(a, c, n)
    ensures b == c
  {
    if n > 0 {
      XorBitsCancels(a / 2, b / 2, c / 2, n - 1);
    }
  }

  lemma XorCancels(a: byte, b: byte, c: byte)
    requires Xor(a, b) == Xor(a, c)
    ensures b == c
  {
    assert Pow2(8) == 256 by { assert Pow2(4) == 16; }
    XorBitsCancels(a, b, c, 8);
  }

  function Pow256(n: nat): nat {
    if n == 0 then 1 else 256 * Pow256(n - 1)
  }

  /** An integer of n bytes is determined by its bytes. */
  lemma {:induction false} BytesDetermine(x: nat, y: nat, n: nat)
    requires x < Pow256(n) && y < Pow256(n)
    requires forall i | 0 <= i < n :: ByteOf(x, i) == ByteOf(y, i)
    ensures x == y
  {
    if n > 0 {
      assert ByteOf(x, 0) == ByteOf(y, 0);
      forall i | 0 <= i < n - 1
        ensures ByteOf(x / 256, i) == ByteOf(y / 256, i)
      {
        assert ByteOf(x, i + 1) == ByteOf(y, i + 1);
      }
      BytesDetermine(x / 256, y / 256, n - 1);
    }
  }

  lemma Pow256Of8()
    ensures Pow256(8) == TWO_TO_THE_64
  {
    assert Pow256(2) == 0x1_0000;
    assert Pow256(4) == 0x1_0000_0000;
    assert Pow256(6) == 0x1_0000_0000_0000;
  }

  /** binary.BigEndian.PutUint32. */
  function PutUint32(n: nat): (b: bytes)
    requires n < TWO_TO_THE_32
    ensures |b| == 4
  {
    [n / 0x100_0000, n / 0x1_0000 % 256, n / 0x100 % 256, n % 256]
  }

  /** binary.BigEndian.Uint32. */
  function Uint32(b: bytes): (n: nat)
    requires |b| == 4
    ensures n < TWO_TO_THE_32
  {
    var b0: int, b1: int, b2: int := b[0], b[1], b[2];
    b0 * 0x100_0000 + b1 * 0x1_0000 + b2 * 0x100 + b[3]
  }

  lemma Uint32RoundTrip(n: nat)
    requires n < TWO_TO_THE_32
    ensures Uint32(PutUint32(n)) == n
  {
    assert n / 0x1_0000 == n / 0x100_0000 * 0x100 + n / 0x1_0000 % 256;
    assert n / 0x100 == n / 0x1_0000 * 0x100 + n / 0x100 % 256;
  }

  /** The number that bytes stand for, most significant byte first. */
  function BigEndian(b: bytes): nat {
    if b == [] then 0 else BigEndian(b[..|b| - 1]) * 256 + b[|b| - 1]
  }

  lemma PutUint32BigEndian(n: nat)
    requires n < TWO_TO_THE_32
    ensures BigEndian(PutUint32(n)) == n
  {
    var b := PutUint32(n);
    assert b[..3][..2] == b[..2] && b[..2][..1] == b[..1] && b[..1][..0] == [];
    assert BigEndian(b[..1]) == n / 0x100_0000;
    assert BigEndian(b[..2]) == n / 0x1_0000;
    assert BigEndian(b[..3]) == n / 0x100;
  }

  // ---------- Bits ----------

  /** Bit i of x, counted from the least significant one. */
  predicate Bit(x: nat, i: nat) {
    if i == 0 then x % 2 == 1 else Bit(x / 2, i - 1)
  }

  lemma {:induction false} XorBitsAt(a: nat, b: nat, n: nat, i: nat)
    requires i < n
    ensures Bit(XorBits(a, b, n), i) <==> Bit(a, i) != Bit(b, i)
  {
    var x := XorBits(a / 2, b / 2, n - 1);
    var low := if a % 2 == b % 2 then 0 else 1;
    assert XorBits(a, b, n) == low + 2 * x;
    if i > 0 {
      assert (low + 2 * x) / 2 == x;
      XorBitsAt(a / 2, b / 2, n - 1, i - 1);
    }
  }

  lemma XorAt(a: byte, b: byte, i: nat)
    requires i < 8
    ensures Bit(Xor(a, b), i) <==> Bit(a, i) != Bit(b, i)
  {
    XorBitsAt(a, b, 8, i);
  }

  /** Multiples of 2^n leave the low n bits alone. */
  lemma {:induction false} LowBits(q: nat, r: nat, n: nat, i: nat)
    requires i < n
    ensures Pow2(n) * q >= 0 && (Bit(Pow2(n) * q + r, i) <==> Bit(r, i))
  {
    var h := Pow2(n - 1) * q;
    assert Pow2(n) * q == 2 * h && h >= 0;
    assert (2 * h + r) % 2 == r % 2 && (2 * h + r) / 2 == h + r / 2;
    if i > 0 {
      LowBits(q, r / 2, n - 1, i - 1);
    }
  }

  lemma EightHalves(x: nat, i: nat)
    ensures Bit(x, i + 8) <==> Bit(x / 256, i)
  {
    assert Bit(x, i + 8) == Bit(x / 2, i + 7) == Bit(x / 4, i + 6) == Bit(x / 8, i + 5);
    assert Bit(x / 8, i + 5) == Bit(x / 16, i + 4) == Bit(x / 32, i + 3) == Bit(x / 64, i + 2);
    assert Bit(x / 64, i + 2) == Bit(x / 128, i + 1) == Bit(x / 256, i);
  }

  /** The bits of the k-th byte. */
  lemma {:induction false} ByteBits(x: nat, k: nat, i: nat)
    requires i < 8
    ensures Bit(ByteOf(x, k), i) <==> Bit(x, 8 * k + i)
    decreases k
  {
    if k == 0 {
      assert Pow2(8) == 256 by { assert Pow2(4) == 16; }
      LowBits(x / 256, x % 256, 8, i);
    } else {
      ByteBits(x / 256, k - 1, i);
      EightHalves(x, 8 * (k - 1) + i);
    }
  }

  // ---------- Pieces ----------

  function Flatten<T>(pieces: seq<seq<T>>): seq<T> {
    if pieces == [] then [] else pieces[0] + Flatten(pieces[1..])
  }

  /** s cut into pieces of the given size; only the last piece may be shorter. */
  function Chunks<T>(s: seq<T>, size: nat): (pieces: seq<seq<T>>)
    requires size >= 1
    decreases |s|
  {
    if s == [] then []
    else var k := Min(size, |s|); [s[..k]] + Chunks(s[k..], size)
  }

  /** What it means to be cut to size: full pieces, then one non-empty piece that fits. */
  ghost predicate CutToSize<T>(pieces: seq<seq<T>>, size: nat) {
    && (forall i :: 0 <= i < |pieces| - 1 ==> |pieces[i]| == size)
    && (pieces != [] ==> 0 < |pieces[|pieces| - 1]| <= size)
  }

  /** Cutting loses nothing and respects the size. */
  lemma {:induction false} ChunksCut<T>(s: seq<T>, size: nat)
    requires size >= 1
    ensures Flatten(Chunks(s, size)) == s
    ensures CutToSize(Chunks(s, size), size)
  {
    if s != [] {
      var k := Min(size, |s|);
      ChunksCut(s[k..], size);
      assert s == s[..k] + s[k..];
    }
  }

  /** There is only one way to cut a sequence to size. */
  lemma {:induction false} ChunksUnique<T>(pieces: seq<seq<T>>, size: nat)
    requires size >= 1 && CutToSize(pieces, size)
    ensures Chunks(Flatten(pieces), size) == pieces
    decreases |pieces|
  {
    if pieces != [] {
      var rest := pieces[1..];
      assert forall i :: 0 <= i < |rest| ==> rest[i] == pieces[i + 1];
      ChunksUnique(rest, size);
      var s := Flatten(pieces);
      assert s == pieces[0] + Flatten(rest);
      if rest == [] {
        assert s == pieces[0];
      } else {
        assert s[size..] == Flatten(rest);
        assert s[..size] == pieces[0];
      }
    }
  }

  /** Pieces are numbered by ceiling division. */
  lemma {:induction false} ChunksCount<T>(s: seq<T>, size: nat)
    requires size >= 1
    ensures |Chunks(s, size)| * size < |s| + size
    ensures |s| <= |Chunks(s, size)| * size
    decreases |s|
  {
    if s != [] {
      var k := Min(size, |s|);
      ChunksCount(s[k..], size);
      var n := |Chunks(s[k..], size)|;
      assert (n + 1) * size == n * size + size;
      if |s| < size {
        assert s[k..] == [];
      }
    }
  }

  lemma {:induction false} FlattenAppend<T>(a: seq<seq<T>>, b: seq<seq<T>>)
    ensures Flatten(a + b) == Flatten(a) + Flatten(b)
  {
    if a == [] {
      assert a + b == b;
    } else {
      assert (a + b)[1..] == a[1..] + b;
      FlattenAppend(a[1..], b);
    }
  }
}
