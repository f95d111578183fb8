/** Every group's superblock in the device's bytes, and rewriting them one after the other. */
module Superblocks {
  import opened Prelude
  import opened Bytes
  import opened Device
  import opened SuperblockCodec
  import opened Identity
  import opened SbRewrite
  import Compute
  import Checksum

  // ---------------------------------------------------------------------------------------
  // Where they are.

  /** The first byte of group `agno`, which is that of its superblock's block. */
  function SbByte(geo: Geo, agno: nat): nat {
    agno * geo.agblocks * geo.blocksize
  }

  predicate OnDevice(flat: seq<byte>, geo: Geo, agno: nat) {
    SbByte(geo, agno) + geo.blocksize <= |flat|
  }

  predicate InBlock(geo: Geo, agno: nat, j: nat) {
    SbByte(geo, agno) <= j < SbByte(geo, agno) + geo.blocksize
  }

  /** The block with group `agno`'s superblock. */
  function SbBlock(flat: seq<byte>, geo: Geo, agno: nat): (b: seq<byte>)
    requires OnDevice(flat, geo, agno)
    ensures |b| == geo.blocksize
  {
    flat[SbByte(geo, agno)..SbByte(geo, agno) + geo.blocksize]
  }

  lemma SaneSizes(geo: Geo)
    requires geo.Sane()
    ensures SB_END <= geo.sectsize <= geo.blocksize <= 0x1_0000 && geo.agblocks > 0 && geo.agcount > 0
    ensures geo.blocksize in {512, 1024, 2048, 4096, 8192, 16384, 32768, 65536}
  {
    hide Compute.PowerOfTwo;
    Compute.PowersListed(geo.blocksize);
  }

  predicate GoodAt(flat: seq<byte>, geo: Geo, agno: nat)
    requires geo.Sane() && OnDevice(flat, geo, agno)
  {
    SaneSizes(geo);
    Good(SbBlock(flat, geo, agno), geo.sectsize)
  }

  predicate AllOnDevice(flat: seq<byte>, geo: Geo) {
    forall i: nat :: i < geo.agcount ==> OnDevice(flat, geo, i)
  }

  /** Every group's superblock, primary first. */
  function Sbs(flat: seq<byte>, geo: Geo): (sbs: seq<Superblock>)
    requires geo.Sane() && AllOnDevice(flat, geo)
    ensures |sbs| == geo.agcount > 0
    ensures forall i :: 0 <= i < |sbs| ==> sbs[i] == SbAt(flat, geo, i)
  {
    seq(geo.agcount, (i: nat) requires i < geo.agcount => SbAt(flat, geo, i))
  }

  function SbAt(flat: seq<byte>, geo: Geo, agno: nat): Superblock
    requires geo.Sane() && OnDevice(flat, geo, agno)
  {
    SaneSizes(geo);
    Sb(SbBlock(flat, geo, agno))
  }

  /** Two groups' superblocks are a group apart. */
  lemma BlocksApart(geo: Geo, a: nat, b: nat)
    requires geo.agblocks > 0 && a < b
    ensures SbByte(geo, a) + geo.blocksize <= SbByte(geo, b)
  {
    MulAtLeast(b - a, geo.agblocks);
    assert b * geo.agblocks == a * geo.agblocks + (b - a) * geo.agblocks;
    MulGrows(a * geo.agblocks + 1, b * geo.agblocks, geo.blocksize);
  }

  lemma OneBlock(geo: Geo, a: nat, b: nat, j: nat)
    requires geo.agblocks > 0 && InBlock(geo, a, j) && InBlock(geo, b, j)
    ensures a == b
  {
    hide SbByte;
    if a < b {
      BlocksApart(geo, a, b);
    } else if b < a {
      BlocksApart(geo, b, a);
    }
  }

  // ---------------------------------------------------------------------------------------
  // Rewriting the first of them.

  ghost predicate RewroteAt(was: seq<byte>, now: seq<byte>, geo: Geo, meta: Uuid, to: Uuid, agno: nat)
    requires |was| == |now|
  {
    && OnDevice(was, geo, agno)
    && IsRestamped(SbBlock(was, geo, agno), SbBlock(now, geo, agno), geo.sectsize, meta, to)
  }

  predicate Beyond(geo: Geo, n: nat, j: nat) {
    forall i: nat {:trigger InBlock(geo, i, j)} :: i < n ==> !InBlock(geo, i, j)
  }

  /** The first `n` superblocks are given `to`, and no other byte changes. */
  ghost predicate Rewrote(was: seq<byte>, now: seq<byte>, geo: Geo, meta: Uuid, to: Uuid, n: nat) {
    && |was| == |now|
    && (forall i: nat {:trigger RewroteAt(was, now, geo, meta, to, i)} ::
          i < n ==> RewroteAt(was, now, geo, meta, to, i))
    && (forall j :: 0 <= j < |was| && Beyond(geo, n, j) ==> now[j] == was[j])
  }

  lemma RewroteNone(flat: seq<byte>, geo: Geo, meta: Uuid, to: Uuid)
    ensures Rewrote(flat, flat, geo, meta, to, 0)
  {
  }

  /** Blocks with the same bytes. */
  lemma SameBlock(a: seq<byte>, b: seq<byte>, geo: Geo, agno: nat)
    requires |a| == |b| && OnDevice(a, geo, agno)
    requires forall j :: 0 <= j < |a| && InBlock(geo, agno, j) ==> a[j] == b[j]
    ensures SbBlock(a, geo, agno) == SbBlock(b, geo, agno)
  {
    hide SbByte;
  }

  /** The next superblock is still as it was. */
  lemma NextIsUntouched(was: seq<byte>, now: seq<byte>, geo: Geo, meta: Uuid, to: Uuid, n: nat, agno: nat)
    requires geo.agblocks > 0 && Rewrote(was, now, geo, meta, to, n) && n <= agno && OnDevice(was, geo, agno)
    ensures SbBlock(now, geo, agno) == SbBlock(was, geo, agno)
  {
    hide SbByte, InBlock;
    forall j | 0 <= j < |was| && InBlock(geo, agno, j)
      ensures now[j] == was[j]
    {
      forall i: nat | i < n
        ensures !InBlock(geo, i, j)
      {
        if InBlock(geo, i, j) {
          OneBlock(geo, i, agno, j);
        }
      }
    }
    SameBlock(was, now, geo, agno);
  }

  lemma RewroteOneMore(
      was: seq<byte>, now: seq<byte>, next: seq<byte>, b: seq<byte>, geo: Geo, meta: Uuid, to: Uuid, n: nat)
    requires geo.agblocks > 0 && Rewrote(was, now, geo, meta, to, n) && OnDevice(was, geo, n)
    requires |b| == geo.blocksize && next == Splice(now, SbByte(geo, n), b)
    requires IsRestamped(SbBlock(was, geo, n), b, geo.sectsize, meta, to)
    ensures Rewrote(was, next, geo, meta, to, n + 1)
  {
    hide SbByte, IsRestamped;
    forall i: nat | i < n + 1
      ensures RewroteAt(was, next, geo, meta, to, i)
    {
      if i < n {
        assert RewroteAt(was, now, geo, meta, to, i);
        BlocksApart(geo, i, n);
        SameBlock(now, next, geo, i);
      } else {
        assert SbBlock(next, geo, n) == b;
      }
    }
    forall j | 0 <= j < |was| && Beyond(geo, n + 1, j)
      ensures next[j] == was[j]
    {
      assert !InBlock(geo, n, j);
      assert Beyond(geo, n, j);
    }
  }

  /** One group's superblock after `n` are rewritten. */
  lemma RewroteSb(was: seq<byte>, now: seq<byte>, geo: Geo, meta: Uuid, to: Uuid, n: nat, i: nat)
    requires geo.Sane() && Rewrote(was, now, geo, meta, to, n) && OnDevice(was, geo, i)
    ensures SbAt(now, geo, i) == if i < n then SbAt(was, geo, i).Restamped(meta, to) else SbAt(was, geo, i)
    ensures GoodAt(was, geo, i) ==> GoodAt(now, geo, i)
  {
    SaneSizes(geo);
    if i < n {
      assert RewroteAt(was, now, geo, meta, to, i);
      hide SbByte, Sb, SbBlock, OnDevice, Superblock.Restamped, Geo.Sane;
      if GoodAt(was, geo, i) {
        RestampedIsGood(SbBlock(was, geo, i), SbBlock(now, geo, i), geo.sectsize, meta, to);
      }
    } else {
      NextIsUntouched(was, now, geo, meta, to, n, i);
    }
  }

  /** Rewriting the first `n` superblocks is one step of the commands on their values. */
  lemma RewroteIsRestamped(was: seq<byte>, now: seq<byte>, geo: Geo, meta: Uuid, to: Uuid, n: nat)
    requires geo.Sane() && Rewrote(was, now, geo, meta, to, n) && AllOnDevice(was, geo) && n <= geo.agcount
    ensures AllOnDevice(now, geo) && Sbs(now, geo) == RestampedUpTo(Sbs(was, geo), meta, to, n)
  {
    hide SbByte, RewroteAt, Beyond, SbAt, GoodAt, Geo.Sane, Superblock.Restamped;
    forall i: nat | i < geo.agcount
      ensures OnDevice(now, geo, i)
      ensures SbAt(now, geo, i) == if i < n then SbAt(was, geo, i).Restamped(meta, to) else SbAt(was, geo, i)
    {
      assert OnDevice(was, geo, i);
      RewroteSb(was, now, geo, meta, to, n, i);
    }
  }

  // ---------------------------------------------------------------------------------------
  // Apart from the log.

  /** No superblock's block is over the `len` bytes from `start`. */
  predicate ClearOf(geo: Geo, start: nat, len: nat) {
    forall i: nat {:trigger SbByte(geo, i)} :: i < geo.agcount ==>
      SbByte(geo, i) + geo.blocksize <= start || start + len <= SbByte(geo, i)
  }

  lemma ClearBlock(a: seq<byte>, b: seq<byte>, geo: Geo, start: nat, len: nat, agno: nat)
    requires SameBut(a, b, start, len) && ClearOf(geo, start, len) && agno < geo.agcount && OnDevice(a, geo, agno)
    ensures SbBlock(a, geo, agno) == SbBlock(b, geo, agno)
  {
    var _ := SbByte(geo, agno);
    hide SbByte;
    SameBlock(a, b, geo, agno);
  }

  /** Rewriting superblocks leaves bytes clear of them as they were. */
  lemma ClearOfRewrite(
      was: seq<byte>, now: seq<byte>, geo: Geo, meta: Uuid, to: Uuid, n: nat, start: nat, len: nat)
    requires Rewrote(was, now, geo, meta, to, n) && n <= geo.agcount && ClearOf(geo, start, len)
    ensures forall j :: 0 <= j < |was| && start <= j < start + len ==> now[j] == was[j]
  {
    forall j | 0 <= j < |was| && start <= j < start + len
      ensures now[j] == was[j]
    {
      forall i: nat | i < n
        ensures !InBlock(geo, i, j)
      {
        var _ := SbByte(geo, i);
      }
      assert Beyond(geo, n, j);
    }
  }

  // ---------------------------------------------------------------------------------------
  // Read again.

  lemma SameHalf(a: seq<byte>, b: seq<byte>, off: nat)
    requires off + 2 <= |a| && off + 2 <= |b| && a[off] == b[off] && a[off + 1] == b[off + 1]
    ensures Be16(a, off) == Be16(b, off)
  {
  }

  lemma SameWide(a: seq<byte>, b: seq<byte>, off: nat)
    requires off + 8 <= |a| && off + 8 <= |b| && forall i :: off <= i < off + 8 ==> a[i] == b[i]
    ensures Be64(a, off) == Be64(b, off)
  {
    SameField(a, b, off);
    SameField(a, b, off + 4);
  }

  predicate RewrittenByte(i: nat) {
    IdentityByte(i) || EncodedByte(i) || Within(i, CRC_OFF, 4)
  }

  /** Nothing the parser reads is in the bytes a rewrite changes, but for the incompat word. */
  lemma ReadsTheSame(a: seq<byte>, b: seq<byte>)
    requires SB_END <= |a| && SB_END <= |b|
    requires forall i: nat :: i < SB_END && !RewrittenByte(i) ==> a[i] == b[i]
    ensures ReadGeo(a).Shape() == ReadGeo(b).Shape()
    ensures Be32(a, 0) == Be32(b, 0) && Be16(a, 100) == Be16(b, 100)
  {
    hide Be16, Be32, Be64;
    SameField(a, b, 0);
    SameField(a, b, 4);
    SameWide(a, b, 8);
    SameWide(a, b, 48);
    SameField(a, b, 84);
    SameField(a, b, 88);
    SameField(a, b, 96);
    SameHalf(a, b, 100);
    SameHalf(a, b, 102);
    SameHalf(a, b, 104);
    SameHalf(a, b, 194);
    SameField(a, b, 196);
    SameField(a, b, 212);
  }

  lemma ShapeIsSane(g: Geo, h: Geo)
    requires g.Shape() == h.Shape()
    ensures g.Sane() <==> h.Sane()
  {
    hide Compute.InRange;
  }

  lemma ParsesAgain(a: seq<byte>, b: seq<byte>)
    requires SB_END <= |a| && SB_END <= |b| && Parse(a).Ok?
    requires forall i: nat :: i < SB_END && !RewrittenByte(i) ==> a[i] == b[i]
    ensures Parse(b).Ok? && Parse(b).value.Shape() == Parse(a).value.Shape()
  {
    ReadsTheSame(a, b);
    hide Be16, Be32, Be64, RewrittenByte, ReadGeo, Geo.Sane, Geo.Shape;
    ShapeIsSane(ReadGeo(a), ReadGeo(b));
  }

  /** Only the shape says where superblocks are and what they must hold. */
  lemma SameShape(flat: seq<byte>, g: Geo, h: Geo, agno: nat)
    requires g.Shape() == h.Shape() && g.Sane()
    ensures h.Sane() && g.agcount == h.agcount && g.blocksize == h.blocksize && SbByte(g, agno) == SbByte(h, agno)
    ensures OnDevice(flat, g, agno) <==> OnDevice(flat, h, agno)
    ensures OnDevice(flat, g, agno) ==>
              SbAt(flat, g, agno) == SbAt(flat, h, agno) && GoodAt(flat, g, agno) == GoodAt(flat, h, agno)
  {
    hide Geo.Sane, Good, Sb;
    ShapeIsSane(g, h);
  }

  /** Nothing else at the start of the device changes. */
  lemma PrimaryKept(was: seq<byte>, now: seq<byte>, geo: Geo, meta: Uuid, to: Uuid, n: nat, i: nat)
    requires geo.Sane() && Rewrote(was, now, geo, meta, to, n) && OnDevice(was, geo, 0)
    requires i < SB_END && !RewrittenByte(i)
    ensures i < |was| && now[i] == was[i]
  {
    SaneSizes(geo);
    hide Geo.Sane, Sb, Checksum.Sealed;
    assert SbByte(geo, 0) == 0;
    assert SbBlock(was, geo, 0)[i] == was[i] && SbBlock(now, geo, 0)[i] == now[i];
    if n == 0 {
      assert Beyond(geo, n, i);
    } else {
      assert RewroteAt(was, now, geo, meta, to, 0);
    }
  }

  lemma SbsSameShape(flat: seq<byte>, g: Geo, h: Geo)
    requires g.Shape() == h.Shape() && g.Sane() && AllOnDevice(flat, g)
    ensures h.Sane() && AllOnDevice(flat, h) && Sbs(flat, g) == Sbs(flat, h)
  {
    hide Geo.Shape, Geo.Sane, SbByte, SbAt;
    SameShape(flat, g, h, 0);
    forall i: nat | i < g.agcount
      ensures OnDevice(flat, h, i) && SbAt(flat, g, i) == SbAt(flat, h, i)
    {
      assert OnDevice(flat, g, i);
      SameShape(flat, g, h, i);
    }
  }
}
