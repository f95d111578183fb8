/** Big-endian fields in byte strings. */
module Bytes {
  import opened Prelude

  const TWO_16: nat := 0x1_0000
  const TWO_64: nat := 0x1_0000_0000_0000_0000

  function Be16(b: seq<byte>, off: nat): (r: nat)
    requires off + 2 <= |b|
    ensures r < TWO_16
  {
    b[off] as nat * 0x100 + b[off + 1]
  }

  function Be32(b: seq<byte>, off: nat): (r: nat)
    requires off + 4 <= |b|
    ensures r < TWO_32
  {
    b[off] as nat * 0x100_0000 + b[off + 1] as nat * 0x1_0000 + b[off + 2] as nat * 0x100 + b[off + 3]
  }

  function Be64(b: seq<byte>, off: nat): (r: nat)
    requires off + 8 <= |b|
    ensures r < TWO_64
  {
    Be32(b, off) * TWO_32 + Be32(b, off + 4)
  }

  method Put16(a: array<byte>, off: nat, v: nat)
    requires off + 2 <= a.Length && v < TWO_16
    modifies a
    ensures Be16(a[..], off) == v
    ensures forall i :: 0 <= i < a.Length && (i < off || off + 2 <= i) ==> a[i] == old(a[i])
  {
    a[off], a[off + 1] := v / 0x100, v % 0x100;
  }

  lemma Split32(v: nat)
    requires v < TWO_32
    ensures 0 <= v / 0x100_0000 < 0x100
    ensures v / 0x100_0000 * 0x100_0000 + v / 0x1_0000 % 0x100 * 0x1_0000 + v / 0x100 % 0x100 * 0x100 + v % 0x100 == v
  {
    assert v / 0x100 == v / 0x1_0000 * 0x100 + v / 0x100 % 0x100;
    assert v / 0x1_0000 == v / 0x100_0000 * 0x100 + v / 0x1_0000 % 0x100;
  }

  method Put32(a: array<byte>, off: nat, v: nat)
    requires off + 4 <= a.Length && v < TWO_32
    modifies a
    ensures Be32(a[..], off) == v
    ensures forall i :: 0 <= i < a.Length && (i < off || off + 4 <= i) ==> a[i] == old(a[i])
    ensures forall o :: 0 <= o <= a.Length - 4 && (o + 4 <= off || off + 4 <= o) ==>
              Be32(a[..], o) == old(Be32(a[..], o))
  {
    var b3, b2, b1, b0 := v / 0x100_0000, v / 0x1_0000 % 0x100, v / 0x100 % 0x100, v % 0x100;
    Split32(v);
    a[off], a[off + 1], a[off + 2], a[off + 3] := b3, b2, b1, b0;
  }

  method Put64(a: array<byte>, off: nat, v: nat)
    requires off + 8 <= a.Length && v < TWO_64
    modifies a
    ensures Be64(a[..], off) == v
    ensures forall i :: 0 <= i < a.Length && (i < off || off + 8 <= i) ==> a[i] == old(a[i])
  {
    Put32(a, off, v / TWO_32);
    Put32(a, off + 4, v % TWO_32);
  }

  /** Equal bytes hold equal fields. */
  lemma SameField(a: seq<byte>, b: seq<byte>, off: nat)
    requires off + 4 <= |a| && off + 4 <= |b|
    requires forall i :: off <= i < off + 4 ==> a[i] == b[i]
    ensures Be32(a, off) == Be32(b, off)
  {
  }
}
