/** Rewriting one superblock in place: its identity, and what decoding and encoding it again changes. */
module SbRewrite {
  import opened Prelude
  import opened Bytes
  import opened SuperblockCodec
  import opened Identity
  import Checksum

  const UUID_OFF: nat := 32
  const META_UUID_OFF: nat := 248
  const INCOMPAT_OFF: nat := 216
  const UQUOTINO_OFF: nat := 160
  const GQUOTINO_OFF: nat := 168
  const PQUOTINO_OFF: nat := 232
  const FEATURES2_OFF: nat := 200
  const BAD_FEATURES2_OFF: nat := 204

  /** The fields a rewrite reads or writes. */
  function Sb(b: seq<byte>): Superblock
    requires SB_END <= |b|
  {
    Superblock(b[UUID_OFF..UUID_OFF + 16], b[META_UUID_OFF..META_UUID_OFF + 16], Be32(b, INCOMPAT_OFF),
               Be64(b, 16), Be64(b, 48), Be64(b, UQUOTINO_OFF), Be64(b, GQUOTINO_OFF), Be64(b, PQUOTINO_OFF),
               Be32(b, FEATURES2_OFF), Be32(b, BAD_FEATURES2_OFF))
  }

  /** A superblock block: its magic, and the checksum of its sector. */
  predicate Good(b: seq<byte>, sectsize: nat)
    requires SB_END <= sectsize <= |b|
  {
    Be32(b, 0) == SB_MAGIC && Checksum.Sealed(b[..sectsize], CRC_OFF)
  }

  predicate Within(i: nat, off: nat, len: nat) {
    off <= i < off + len
  }

  predicate IdentityByte(i: nat) {
    Within(i, UUID_OFF, 16) || Within(i, META_UUID_OFF, 16) || Within(i, INCOMPAT_OFF, 4)
  }

  /** What encoding a superblock again may change, but for the checksum. */
  predicate EncodedByte(i: nat) {
    Within(i, UQUOTINO_OFF, 16) || Within(i, PQUOTINO_OFF, 8) || Within(i, BAD_FEATURES2_OFF, 4)
  }

  ghost predicate Keeps(was: seq<byte>, now: seq<byte>, edited: nat -> bool) {
    |was| == |now| && forall i :: 0 <= i < |was| && !edited(i) ==> now[i] == was[i]
  }

  ghost predicate IsIdentified(was: seq<byte>, now: seq<byte>, meta: Uuid, to: Uuid) {
    && SB_END <= |was| && Keeps(was, now, IdentityByte)
    && Sb(now) == Sb(was).Identified(meta, to)
  }

  ghost predicate IsOnDisk(was: seq<byte>, now: seq<byte>, sectsize: nat) {
    && SB_END <= sectsize <= |was|
    && Keeps(was, now, (i: nat) => EncodedByte(i) || Within(i, CRC_OFF, 4))
    && Sb(now) == Sb(was).OnDisk() && Checksum.Sealed(now[..sectsize], CRC_OFF)
  }

  /** `now` is `was` given `to`, and written back. */
  ghost predicate IsRestamped(was: seq<byte>, now: seq<byte>, sectsize: nat, meta: Uuid, to: Uuid) {
    && SB_END <= sectsize <= |was|
    && Keeps(was, now, (i: nat) => IdentityByte(i) || EncodedByte(i) || Within(i, CRC_OFF, 4))
    && Sb(now) == Sb(was).Restamped(meta, to) && Checksum.Sealed(now[..sectsize], CRC_OFF)
  }

  lemma RestampIsBoth(was: seq<byte>, mid: seq<byte>, now: seq<byte>, sectsize: nat, meta: Uuid, to: Uuid)
    requires IsIdentified(was, mid, meta, to) && IsOnDisk(mid, now, sectsize)
    ensures IsRestamped(was, now, sectsize, meta, to)
  {
    hide Sb, Superblock.Identified, Superblock.OnDisk, Checksum.Sealed;
  }

  lemma SameSlice(a: seq<byte>, b: seq<byte>, off: nat, len: nat)
    requires |a| == |b| && off + len <= |a| && forall i :: off <= i < off + len ==> a[i] == b[i]
    ensures a[off..off + len] == b[off..off + len]
  {
  }

  lemma SameNumber(a: seq<byte>, b: seq<byte>, off: nat)
    requires |a| == |b| && off + 8 <= |a| && forall i :: off <= i < off + 8 ==> a[i] == b[i]
    ensures Be64(a, off) == Be64(b, off)
  {
    SameField(a, b, off);
    SameField(a, b, off + 4);
  }

  lemma IdentifiedWith(was: seq<byte>, now: seq<byte>, uuid: Uuid, metaUuid: Uuid, incompat: nat)
    requires SB_END <= |was| && Keeps(was, now, IdentityByte)
    requires now[UUID_OFF..UUID_OFF + 16] == uuid && now[META_UUID_OFF..META_UUID_OFF + 16] == metaUuid
    requires Be32(now, INCOMPAT_OFF) == incompat
    ensures Sb(now) == Sb(was).With(uuid, metaUuid, incompat)
  {
    hide Be32, Be64;
    SameNumber(was, now, 16);
    SameNumber(was, now, 48);
    SameNumber(was, now, UQUOTINO_OFF);
    SameNumber(was, now, GQUOTINO_OFF);
    SameNumber(was, now, PQUOTINO_OFF);
    SameField(was, now, FEATURES2_OFF);
    SameField(was, now, BAD_FEATURES2_OFF);
  }

  /** Identity fields in place, as `set_uuid` edits them. */
  method Identify(b: array<byte>, meta: Uuid, to: Uuid)
    requires SB_END <= b.Length
    modifies b
    ensures IsIdentified(old(b[..]), b[..], meta, to)
  {
    hide Be32, HasBit;
    ghost var was := b[..];
    var incompat := Be32(b[..], INCOMPAT_OFF);
    var hasMeta := HasBit(incompat, IN_META_UUID);
    if !hasMeta && to != meta {
      FlagBit(incompat);
      incompat := incompat + IN_META_UUID;
      PutField(b, Raw(META_UUID_OFF, b[UUID_OFF..UUID_OFF + 16]));
    } else if hasMeta && to == meta {
      PutField(b, Raw(META_UUID_OFF, NIL_UUID));
      FlagCleared(incompat);
      incompat := incompat - IN_META_UUID;
    }
    ghost var named := b[..];
    PutField(b, Num(INCOMPAT_OFF, 4, incompat));
    ghost var mid := b[..];
    PutField(b, Raw(UUID_OFF, to));
    SameField(mid, b[..], INCOMPAT_OFF);
    SameSlice(named, b[..], META_UUID_OFF, 16);
    IdentifiedWith(was, b[..], to, named[META_UUID_OFF..META_UUID_OFF + 16], incompat);
  }

  /** 0 is read as the null inode, and written so. */
  method FillQuota(b: array<byte>, off: nat)
    requires off + 8 <= b.Length
    modifies b
    ensures Be64(b[..], off) == OrNull(old(Be64(b[..], off)))
    ensures forall i :: 0 <= i < b.Length && !Within(i, off, 8) ==> b[i] == old(b[i])
  {
    if Be64(b[..], off) == 0 {
      Put64(b, off, NULL64);
    }
  }

  method FillQuotas(b: array<byte>)
    requires SB_END <= b.Length
    modifies b
    ensures Be64(b[..], UQUOTINO_OFF) == OrNull(old(Be64(b[..], UQUOTINO_OFF)))
    ensures Be64(b[..], GQUOTINO_OFF) == OrNull(old(Be64(b[..], GQUOTINO_OFF)))
    ensures Be64(b[..], PQUOTINO_OFF) == OrNull(old(Be64(b[..], PQUOTINO_OFF)))
    ensures Keeps(old(b[..]), b[..], (i: nat) => Within(i, UQUOTINO_OFF, 16) || Within(i, PQUOTINO_OFF, 8))
  {
    hide Be64, OrNull;
    ghost var was := b[..];
    FillQuota(b, UQUOTINO_OFF);
    ghost var user := b[..];
    FillQuota(b, GQUOTINO_OFF);
    ghost var group := b[..];
    FillQuota(b, PQUOTINO_OFF);
    SameNumber(was, user, GQUOTINO_OFF);
    SameNumber(was, group, PQUOTINO_OFF);
    SameNumber(user, b[..], UQUOTINO_OFF);
    SameNumber(group, b[..], GQUOTINO_OFF);
  }

  lemma OnDiskWith(was: seq<byte>, now: seq<byte>)
    requires SB_END <= |was|
    requires Keeps(was, now, (i: nat) => EncodedByte(i) || Within(i, CRC_OFF, 4))
    requires Be64(now, UQUOTINO_OFF) == OrNull(Be64(was, UQUOTINO_OFF))
    requires Be64(now, GQUOTINO_OFF) == OrNull(Be64(was, GQUOTINO_OFF))
    requires Be64(now, PQUOTINO_OFF) == OrNull(Be64(was, PQUOTINO_OFF))
    requires Be32(now, BAD_FEATURES2_OFF) == Be32(was, FEATURES2_OFF)
    ensures Sb(now) == Sb(was).OnDisk()
  {
    hide Be32, Be64, OrNull;
    SameSlice(was, now, UUID_OFF, 16);
    SameSlice(was, now, META_UUID_OFF, 16);
    SameField(was, now, INCOMPAT_OFF);
    SameNumber(was, now, 16);
    SameNumber(was, now, 48);
    SameField(was, now, FEATURES2_OFF);
  }

  /** Decoding and encoding it again, and its checksum, as `write_sb` does. */
  method Encode(b: array<byte>, sectsize: nat)
    requires SB_END <= sectsize <= b.Length
    modifies b
    ensures IsOnDisk(old(b[..]), b[..], sectsize)
  {
    hide Be32, Be64, OrNull, Sb, Checksum.Sealed;
    ghost var was := b[..];
    FillQuotas(b);
    ghost var filled := b[..];
    Put32(b, BAD_FEATURES2_OFF, Be32(b[..], FEATURES2_OFF));
    ghost var unsealed := b[..];
    Checksum.Seal(b, sectsize, CRC_OFF);
    SameField(was, filled, FEATURES2_OFF);
    SameField(unsealed, b[..], BAD_FEATURES2_OFF);
    SameNumber(filled, b[..], UQUOTINO_OFF);
    SameNumber(filled, b[..], GQUOTINO_OFF);
    SameNumber(filled, b[..], PQUOTINO_OFF);
    OnDiskWith(was, b[..]);
  }

  // ---------------------------------------------------------------------------------------
  // What a rewrite keeps, and that it leaves nothing open.

  lemma Digits(a: nat, b: nat, x: byte, y: byte)
    requires a * 0x100 + x == b * 0x100 + y
    ensures a == b && x == y
  {
  }

  lemma SameWordBytes(a: seq<byte>, b: seq<byte>, off: nat)
    requires |a| == |b| && off + 4 <= |a| && Be32(a, off) == Be32(b, off)
    ensures forall i :: off <= i < off + 4 ==> a[i] == b[i]
  {
    var p, q := a[off..off + 4], b[off..off + 4];
    Digits((p[0] as nat * 0x100 + p[1]) * 0x100 + p[2], (q[0] as nat * 0x100 + q[1]) * 0x100 + q[2], p[3], q[3]);
    Digits(p[0] as nat * 0x100 + p[1], q[0] as nat * 0x100 + q[1], p[2], q[2]);
    Digits(p[0], q[0], p[1], q[1]);
    SameSliceBytes(a, b, off, 4);
  }

  lemma SameNumberBytes(a: seq<byte>, b: seq<byte>, off: nat)
    requires |a| == |b| && off + 8 <= |a| && Be64(a, off) == Be64(b, off)
    ensures forall i :: off <= i < off + 8 ==> a[i] == b[i]
  {
    hide Be32;
    DivModUnique(Be64(a, off), TWO_32, Be32(a, off), Be32(a, off + 4));
    DivModUnique(Be64(b, off), TWO_32, Be32(b, off), Be32(b, off + 4));
    SameWordBytes(a, b, off);
    SameWordBytes(a, b, off + 4);
  }

  lemma SameSliceBytes(a: seq<byte>, b: seq<byte>, off: nat, len: nat)
    requires |a| == |b| && off + len <= |a| && a[off..off + len] == b[off..off + len]
    ensures forall i :: off <= i < off + len ==> a[i] == b[i]
  {
    forall i | off <= i < off + len
      ensures a[i] == b[i]
    {
      assert a[off..off + len][i - off] == b[off..off + len][i - off];
    }
  }

  lemma SameSbBytes(a: seq<byte>, b: seq<byte>)
    requires SB_END <= |a| == |b| && Sb(a) == Sb(b)
    ensures forall i :: 0 <= i < |a| && (IdentityByte(i) || EncodedByte(i)) ==> a[i] == b[i]
  {
    hide Be32, Be64;
    SameSliceBytes(a, b, UUID_OFF, 16);
    SameSliceBytes(a, b, META_UUID_OFF, 16);
    SameWordBytes(a, b, INCOMPAT_OFF);
    SameNumberBytes(a, b, UQUOTINO_OFF);
    SameNumberBytes(a, b, GQUOTINO_OFF);
    SameNumberBytes(a, b, PQUOTINO_OFF);
    SameWordBytes(a, b, BAD_FEATURES2_OFF);
  }

  /** A rewrite leaves nothing open: the superblock before, the UUIDs and these clauses fix every byte. */
  lemma RestampedIsOne(was: seq<byte>, a: seq<byte>, b: seq<byte>, sectsize: nat, meta: Uuid, to: Uuid)
    requires IsRestamped(was, a, sectsize, meta, to) && IsRestamped(was, b, sectsize, meta, to)
    ensures a == b
  {
    hide Sb, Checksum.Sealed, Superblock.Restamped;
    SameSbBytes(a, b);
    Checksum.SealIsOne(a[..sectsize], b[..sectsize], CRC_OFF);
    forall i | 0 <= i < |a|
      ensures a[i] == b[i]
    {
      if i < sectsize {
        assert a[..sectsize][i] == b[..sectsize][i];
      }
    }
  }

  /** It is a superblock again, of the same geometry but for the incompat word. */
  lemma RestampedIsGood(was: seq<byte>, now: seq<byte>, sectsize: nat, meta: Uuid, to: Uuid)
    requires IsRestamped(was, now, sectsize, meta, to) && Be32(was, 0) == SB_MAGIC
    ensures Good(now, sectsize)
  {
    hide Be32, Sb, Checksum.Sealed;
    SameField(was, now, 0);
  }
}
