/** Checksums over buffers of bytes held as numbers. */
module Checksum {
  import opened Prelude
  import Crc

  // ---------------------------------------------------------------------------------------
  // Numbers and bit-vectors.

  function Low(x: nat): bv8 {
    if x % 2 == 1 then 1 else 0
  }

  /** The low `n` bits of a number. */
  function Bits(x: nat, n: nat): bv8 {
    if n == 0 then 0 else (Bits(x / 2, n - 1) << 1) | Low(x)
  }

  function LowNumber(v: bv8): nat {
    if v & 1 == 1 then 1 else 0
  }

  /** The number `n` bits make. */
  function Number(v: bv8, n: nat): (x: nat)
    ensures Short(x, n)
  {
    if n == 0 then 0 else 2 * Number(v >> 1, n - 1) + LowNumber(v)
  }

  /** A number of `n` bits. */
  predicate Short(x: nat, n: nat) {
    if n == 0 then x == 0 else Short(x / 2, n - 1)
  }

  predicate FitsBits(v: bv8, n: nat)
    requires n <= 8
  {
    v >> n == 0
  }

  lemma ShiftIn(v: bv8, low: bv8, n: nat)
    requires n < 8 && FitsBits(v, n) && low <= 1
    ensures FitsBits((v << 1) | low, n + 1) && ((v << 1) | low) >> 1 == v && ((v << 1) | low) & 1 == low
  {
  }

  lemma ShiftOut(v: bv8, n: nat)
    requires 0 < n <= 8 && FitsBits(v, n)
    ensures FitsBits(v >> 1, n - 1) && ((v >> 1) << 1) | (v & 1) == v && v & 1 <= 1
  {
  }

  lemma NoBits(v: bv8)
    ensures FitsBits(v, 0) <==> v == 0
  {
  }

  lemma {:induction false} NumberOfBits(x: nat, n: nat)
    requires n <= 8 && Short(x, n)
    ensures Number(Bits(x, n), n) == x && FitsBits(Bits(x, n), n)
  {
    hide FitsBits;
    if n == 0 {
      NoBits(0);
    } else {
      NumberOfBits(x / 2, n - 1);
      ShiftIn(Bits(x / 2, n - 1), Low(x), n - 1);
    }
  }

  lemma {:induction false} BitsOfNumber(v: bv8, n: nat)
    requires n <= 8 && FitsBits(v, n)
    ensures Bits(Number(v, n), n) == v
  {
    hide FitsBits;
    if n == 0 {
      NoBits(v);
    } else {
      ShiftOut(v, n);
      BitsOfNumber(v >> 1, n - 1);
      assert Low(Number(v, n)) == v & 1;
    }
  }

  function Twice(n: nat): nat {
    if n == 0 then 1 else 2 * Twice(n - 1)
  }

  lemma {:induction false} ShortIs(x: nat, n: nat)
    ensures Short(x, n) <==> x < Twice(n)
  {
    if n > 0 {
      ShortIs(x / 2, n - 1);
    }
  }

  lemma ByteIsShort(x: nat)
    ensures Short(x, 8) <==> x < 0x100
  {
    ShortIs(x, 8);
    assert Twice(4) == 16;
    assert Twice(8) == 256;
  }

  lemma EightFit(v: bv8)
    ensures FitsBits(v, 8)
  {
  }

  function Vector(x: byte): bv8 {
    Bits(x, 8)
  }

  /** Bytes and bit-vectors are in step, both ways. */
  lemma VectorIsInjective(x: byte, y: byte)
    ensures Vector(x) == Vector(y) <==> x == y
  {
    hide Bits, Number, Short, FitsBits;
    ByteIsShort(x);
    ByteIsShort(y);
    NumberOfBits(x, 8);
    NumberOfBits(y, 8);
  }

  lemma HalvesAre(v: bv8)
    ensures v as int == 2 * ((v >> 1) as int) + LowNumber(v)
  {
  }

  lemma {:induction false} NumberIs(v: bv8, n: nat)
    requires n <= 8 && FitsBits(v, n)
    ensures Number(v, n) == v as int
  {
    if n == 0 {
      NoBits(v);
    } else {
      hide FitsBits;
      ShiftOut(v, n);
      HalvesAre(v);
      NumberIs(v >> 1, n - 1);
    }
  }

  /** The bit-vector is the byte, as numbers go. */
  lemma VectorIs(x: byte)
    ensures Vector(x) as int == x
  {
    hide Bits, Number, Short, FitsBits;
    ByteIsShort(x);
    NumberOfBits(x, 8);
    NumberIs(Bits(x, 8), 8);
  }

  lemma BackToBits(v: bv8)
    ensures Number(v, 8) < 0x100 && Vector(Number(v, 8)) == v
  {
    hide Bits, Short, FitsBits;
    ByteIsShort(Number(v, 8));
    EightFit(v);
    BitsOfNumber(v, 8);
  }

  // ---------------------------------------------------------------------------------------
  // Buffers.

  /** The same bytes as bit-vectors. */
  function AsBits(b: seq<byte>): (bits: seq<bv8>)
    ensures |bits| == |b| && forall i :: 0 <= i < |b| ==> bits[i] == Vector(b[i])
  {
    seq(|b|, i requires 0 <= i < |b| => Vector(b[i]))
  }

  /** The buffer's checksum is in its field. */
  predicate Sealed(b: seq<byte>, off: nat) {
    Crc.Verifies(AsBits(b), off)
  }

  /** The first `len` bytes as bit-vectors. */
  method ToBits(b: array<byte>, len: nat) returns (bits: array<bv8>)
    requires len <= b.Length
    ensures fresh(bits) && bits[..] == AsBits(b[..len])
  {
    bits := new bv8[len];
    hide Vector;
    for i := 0 to len
      invariant forall k :: 0 <= k < i ==> bits[k] == Vector(b[k])
    {
      bits[i] := Vector(b[i]);
    }
  }

  /** The four bytes at `off` of `bits`. */
  method CopyField(b: array<byte>, bits: seq<bv8>, off: nat)
    requires off + 4 <= |bits| <= b.Length
    requires forall i :: 0 <= i < |bits| && !(off <= i < off + 4) ==> Vector(b[i]) == bits[i]
    modifies b
    ensures AsBits(b[..|bits|]) == bits
    ensures forall i :: 0 <= i < b.Length && !(off <= i < off + 4) ==> b[i] == old(b[i])
  {
    hide Vector, Number;
    for i := 0 to 4
      invariant forall k :: off <= k < off + i ==> Vector(b[k]) == bits[k]
      invariant forall k :: 0 <= k < b.Length && !(off <= k < off + 4) ==> b[k] == old(b[k])
    {
      BackToBits(bits[off + i]);
      b[off + i] := Number(bits[off + i], 8);
    }
  }

  /** Whether the first `len` bytes hold their checksum. */
  method Check(b: array<byte>, len: nat, off: nat) returns (ok: bool)
    requires len <= b.Length
    ensures ok <==> Sealed(b[..len], off)
  {
    hide Vector, Crc.IsTable, Crc.Verifies;
    var t := Crc.Table();
    var bits := ToBits(b, len);
    ok := Crc.Verify(t, bits[..], off);
  }

  /** Store the checksum of the first `len` bytes in its field, and touch nothing else. */
  method Seal(b: array<byte>, len: nat, off: nat)
    requires off + 4 <= len <= b.Length
    modifies b
    ensures Sealed(b[..len], off)
    ensures forall i :: 0 <= i < b.Length && !(off <= i < off + 4) ==> b[i] == old(b[i])
  {
    hide Vector, Crc.IsTable, Crc.Verifies, Crc.Stamped;
    ghost var was := AsBits(b[..len]);
    var t := Crc.Table();
    var bits := ToBits(b, len);
    Crc.Stamp(t, bits, off);
    Crc.StampVerifies(was, off);
    StampedOutside(was, off);
    CopyField(b, bits[..], off);
  }

  lemma StampedOutside(b: seq<bv8>, off: nat)
    requires off + 4 <= |b|
    ensures var s := Crc.Stamped(b, off);
            |s| == |b| && forall i :: 0 <= i < |b| && !(off <= i < off + 4) ==> s[i] == b[i]
  {
    hide Crc.Crc32c, Crc.LeBytes;
  }

  /** Two buffers that verify, and differ at most in the checksum, are the same. */
  lemma SealIsOne(a: seq<byte>, b: seq<byte>, off: nat)
    requires Sealed(a, off) && Sealed(b, off) && |a| == |b| && off + 4 <= |a|
    requires forall i :: 0 <= i < |a| && !(off <= i < off + 4) ==> a[i] == b[i]
    ensures a == b
  {
    hide Crc.Verifies, Vector;
    var x, y := AsBits(a), AsBits(b);
    if x != y {
      Crc.CorruptionIsSeen(x, y, off, off, 4);
    }
    forall i | 0 <= i < |a|
      ensures a[i] == b[i]
    {
      assert x[i] == y[i];
      VectorIsInjective(a[i], b[i]);
    }
  }
}
