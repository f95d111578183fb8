/** The ring of free list slots in the AGFL sector. */
module AgflRing {
  import opened Prelude
  import opened Bytes
  import opened Geometry
  import Checksum

  const AGFL_MAGIC: nat := 0x5841_464c
  const NULL32: nat := 0xffff_ffff
  const MAGICNUM: nat := 0
  const SEQNO: nat := 4
  const UUID: nat := 8
  const LSN: nat := 24
  const CRC: nat := 32
  const BNO: nat := AGFL_HEADER

  /** The slot of entry `k`. */
  function Place(first: nat, k: nat, slots: pos): (i: nat)
    ensures i < slots
  {
    (first + k) % slots
  }

  /** What slot `i` of `slots` holds once the list has been put in, from slot `first` on. */
  function Slot(first: nat, list: seq<nat>, slots: pos, i: nat): nat
    decreases |list|
  {
    if list == [] then NULL32
    else
      var last := |list| - 1;
      if Place(first, last, slots) == i then list[last] else Slot(first, list[..last], slots, i)
  }

  /** Bytes of slot `i`. */
  function SlotOff(i: nat): nat {
    BNO + 4 * i
  }

  ghost predicate HoldsRing(b: seq<byte>, slots: nat, first: nat, list: seq<nat>)
    requires slots > 0
  {
    SlotOff(slots) <= |b| && forall i :: 0 <= i < slots ==> Be32(b, SlotOff(i)) == Slot(first, list, slots, i)
  }

  /** Entry by entry, the slots a list takes: those of different entries differ while it fits. */
  lemma SlotsApart(first: nat, j: nat, k: nat, slots: pos)
    requires j < k < j + slots
    ensures Place(first, j, slots) != Place(first, k, slots)
  {
    var q, r := (first + j) / slots, (first + j) % slots;
    var d := k - j;
    assert first + j == q * slots + r;
    if r + d < slots {
      DivModUnique(first + k, slots, q, r + d);
    } else {
      assert (q + 1) * slots == q * slots + slots;
      DivModUnique(first + k, slots, q + 1, r + d - slots);
    }
  }

  /** Read back from `first` on, modulo the ring, the list is what was put in. */
  lemma {:induction false} RingReadsBack(first: nat, list: seq<nat>, slots: pos, k: nat)
    requires |list| <= slots && k < |list|
    ensures Slot(first, list, slots, Place(first, k, slots)) == list[k]
    decreases |list|
  {
    var last := |list| - 1;
    if k < last {
      SlotsApart(first, k, last, slots);
      RingReadsBack(first, list[..last], slots, k);
    }
  }

  /** A slot no entry takes is null. */
  lemma {:induction false} OtherSlotsAreNull(first: nat, list: seq<nat>, slots: pos, i: nat)
    requires forall k :: 0 <= k < |list| ==> Place(first, k, slots) != i
    ensures Slot(first, list, slots, i) == NULL32
    decreases |list|
  {
    if list != [] {
      assert Place(first, |list| - 1, slots) != i;
      OtherSlotsAreNull(first, list[..|list| - 1], slots, i);
    }
  }

  /** The first, last and count that an AGF records of a list. */
  datatype Ends = Ends(flfirst: nat, fllast: nat, flcount: nat)

  function RingEnds(len: nat, slots: pos): Ends {
    Ends(1, len % slots, len)
  }

  function ReadRing(b: seq<byte>, slots: pos, ends: Ends): (list: seq<nat>)
    requires SlotOff(slots) <= |b|
    ensures |list| == ends.flcount
    ensures forall k :: 0 <= k < |list| ==> list[k] == Be32(b, SlotOff(Place(ends.flfirst, k, slots)))
  {
    seq(ends.flcount, k requires 0 <= k => Be32(b, SlotOff(Place(ends.flfirst, k, slots))))
  }

  /** The AGF's first, last and count name the list in the sector, all of it and nothing else. */
  lemma RingRoundTrip(b: seq<byte>, slots: pos, list: seq<nat>)
    requires |list| <= slots && HoldsRing(b, slots, 1, list)
    ensures ReadRing(b, slots, RingEnds(|list|, slots)) == list
    ensures list != [] ==> Be32(b, SlotOff(RingEnds(|list|, slots).fllast)) == list[|list| - 1]
    ensures forall i :: 0 <= i < slots && (forall k :: 0 <= k < |list| ==> Place(1, k, slots) != i) ==>
              Be32(b, SlotOff(i)) == NULL32
  {
    forall k | 0 <= k < |list|
      ensures Be32(b, SlotOff(Place(1, k, slots))) == list[k]
    {
      RingReadsBack(1, list, slots, k);
    }
    if list != [] {
      assert Place(1, |list| - 1, slots) == |list| % slots;
    }
    forall i | 0 <= i < slots && (forall k :: 0 <= k < |list| ==> Place(1, k, slots) != i)
      ensures Be32(b, SlotOff(i)) == NULL32
    {
      OtherSlotsAreNull(1, list, slots, i);
    }
  }

  /** What fills a group's free list always fits its ring. */
  lemma FreelistFits(g: Geometry)
    requires g.sectsize >= MIN_SECTORSIZE
    ensures g.MinFreelist() <= g.AgflSize() && g.AgflSize() > 0
  {
  }

  predicate HasHeader(b: seq<byte>, seqno: nat, uuid: seq<byte>) {
    BNO <= |b| && Be32(b, MAGICNUM) == AGFL_MAGIC && Be32(b, SEQNO) == seqno && b[UUID..UUID + 16] == uuid
    && Be64(b, LSN) == 0
  }

  method PutHeader(seqno: nat, uuid: seq<byte>, sector: array<byte>)
    requires seqno < TWO_32 && |uuid| == 16 && sector.Length >= BNO
    modifies sector
    ensures HasHeader(sector[..], seqno, uuid)
  {
    Put32(sector, MAGICNUM, AGFL_MAGIC);
    Put32(sector, SEQNO, seqno);
    Put64(sector, LSN, 0);
    for i := 0 to 16
      invariant Be64(sector[..], LSN) == 0
      invariant Be32(sector[..], MAGICNUM) == AGFL_MAGIC && Be32(sector[..], SEQNO) == seqno
      invariant sector[UUID..UUID + i] == uuid[..i]
    {
      sector[UUID + i] := uuid[i];
    }
  }

  /** Put `v` in slot `i`, and touch nothing else. */
  method PutSlot(sector: array<byte>, i: nat, v: nat)
    requires SlotOff(i) + 4 <= sector.Length && v < TWO_32
    modifies sector
    ensures Be32(sector[..], SlotOff(i)) == v
    ensures forall k :: 0 <= k < (sector.Length - BNO) / 4 && k != i ==>
              Be32(sector[..], SlotOff(k)) == old(Be32(sector[..], SlotOff(k)))
    ensures sector[..BNO] == old(sector[..BNO])
  {
    Put32(sector, SlotOff(i), v);
  }

  /** The checksum is neither in the header's other fields nor in a slot. */
  lemma SealKeeps(
      a: seq<byte>, b: seq<byte>, seqno: nat, uuid: seq<byte>, slots: pos, first: nat, list: seq<nat>)
    requires |a| == |b| && HasHeader(a, seqno, uuid) && HoldsRing(a, slots, first, list)
    requires forall i :: 0 <= i < |a| && !(CRC <= i < CRC + 4) ==> b[i] == a[i]
    ensures HasHeader(b, seqno, uuid) && HoldsRing(b, slots, first, list)
  {
    assert a[UUID..UUID + 16] == b[UUID..UUID + 16];
    hide Slot;
    forall i | 0 <= i < slots
      ensures Be32(b, SlotOff(i)) == Be32(a, SlotOff(i))
    {
      SameField(a, b, SlotOff(i));
    }
  }

  lemma HeaderKept(a: seq<byte>, b: seq<byte>, seqno: nat, uuid: seq<byte>)
    requires HasHeader(a, seqno, uuid) && BNO <= |b| && a[..BNO] == b[..BNO]
    ensures HasHeader(b, seqno, uuid)
  {
    forall i | 0 <= i < BNO
      ensures a[i] == b[i]
    {
      assert a[..BNO][i] == b[..BNO][i];
    }
  }

  /** Header, then nulls, then the list. */
  method PutRing(seqno: nat, uuid: seq<byte>, first: nat, list: seq<nat>, sector: array<byte>)
    requires seqno < TWO_32 && |uuid| == 16 && sector.Length >= SlotOff(1)
    requires forall k :: 0 <= k < |list| ==> list[k] < TWO_32
    modifies sector
    ensures HoldsRing(sector[..], (sector.Length - BNO) / 4, first, list)
    ensures HasHeader(sector[..], seqno, uuid)
  {
    PutHeader(seqno, uuid, sector);
    ghost var headed := sector[..];
    hide HasHeader, Be32, Place;
    var slots := (sector.Length - BNO) / 4;
    for i := 0 to slots
      invariant sector[..BNO] == headed[..BNO]
      invariant forall k :: 0 <= k < i ==> Be32(sector[..], SlotOff(k)) == NULL32
    {
      PutSlot(sector, i, NULL32);
    }
    for i := 0 to |list|
      invariant sector[..BNO] == headed[..BNO]
      invariant HoldsRing(sector[..], slots, first, list[..i])
    {
      PutSlot(sector, Place(first, i, slots), list[i]);
      assert list[..i + 1][..i] == list[..i];
    }
    assert list[..|list|] == list;
    assert sector[..][..BNO] == headed[..BNO];
    HeaderKept(headed, sector[..], seqno, uuid);
  }

  /** Encode a free list into a sector, with its checksum. */
  method EncodeAgfl(seqno: nat, uuid: seq<byte>, first: nat, list: seq<nat>, sector: array<byte>)
    requires seqno < TWO_32 && |uuid| == 16 && sector.Length >= SlotOff(1)
    requires forall k :: 0 <= k < |list| ==> list[k] < TWO_32
    modifies sector
    ensures HoldsRing(sector[..], (sector.Length - BNO) / 4, first, list)
    ensures HasHeader(sector[..], seqno, uuid) && Checksum.Sealed(sector[..], CRC)
  {
    PutRing(seqno, uuid, first, list, sector);
    ghost var before := sector[..];
    hide HasHeader, HoldsRing, Checksum.Sealed;
    Checksum.Seal(sector, sector.Length, CRC);
    assert sector[..sector.Length] == sector[..];
    SealKeeps(before, sector[..], seqno, uuid, (sector.Length - BNO) / 4, first, list);
  }

  /**
   The sector of a list that starts in slot 1 and leaves a slot over, by its bytes: the magic, the group's
   number and the UUID, then a null slot, the list in order, and nulls.
   */
  lemma AgflInBytes(b: seq<byte>, seqno: nat, uuid: seq<byte>, list: seq<nat>, i: nat)
    requires HasHeader(b, seqno, uuid) && SlotOff(1) <= |b| && |list| < (|b| - BNO) / 4
    requires HoldsRing(b, (|b| - BNO) / 4, 1, list)
    ensures b[0..4] == [0x58, 0x41, 0x46, 0x4c] && Be32(b, 4) == seqno && b[8..24] == uuid && Be64(b, 24) == 0
    ensures i < (|b| - 36) / 4 ==> Be32(b, 36 + 4 * i) == if 1 <= i <= |list| then list[i - 1] else 0xffff_ffff
  {
    var slots: pos := (|b| - BNO) / 4;
    MagicFirst(b);
    if i < slots {
      if 1 <= i <= |list| {
        InOrder(1, i - 1, slots);
        RingReadsBack(1, list, slots, i - 1);
      } else {
        forall k | 0 <= k < |list|
          ensures Place(1, k, slots) != i
        {
          InOrder(1, k, slots);
        }
        OtherSlotsAreNull(1, list, slots, i);
      }
    }
  }

  lemma MagicFirst(b: seq<byte>)
    requires |b| >= 4 && Be32(b, 0) == AGFL_MAGIC
    ensures b[0..4] == [0x58, 0x41, 0x46, 0x4c]
  {
  }

  lemma InOrder(first: nat, k: nat, slots: pos)
    requires first + k < slots
    ensures Place(first, k, slots) == first + k
  {
    DivModUnique(first + k, slots, 0, first + k);
  }
}
