/** Superblocks as plain bytes: where every field is, what the parser refuses, and what a rewrite leaves. */
module SuperblockInBytes {
  import opened Prelude
  import opened Bytes
  import opened AgGeometry
  import opened SuperblockCodec
  import opened Identity
  import opened SbRewrite
  import Geometry
  import Compute
  import Checksum

  type Geom = Geometry.Geometry

  function One(b: bool): nat {
    if b then 1 else 0
  }

  // ---------------------------------------------------------------------------------------
  // What the formatter writes.

  /** Sizes, places and counts of the filesystem. */
  predicate GeometryIs(b: seq<byte>, g: Geom)
    requires |b| >= 264
  {
    && b[0..4] == [0x58, 0x46, 0x53, 0x42]
    && Be32(b, 4) == g.blocksize && Be64(b, 8) == g.dblocks && Be64(b, 16) == 0 && Be64(b, 24) == 0
    && Be64(b, 48) == g.logagno * Pow2(g.agblklog) + g.logAgbno
    && Be32(b, 80) == (if g.blocksize < 4096 then 4096 / g.blocksize else 1)
    && Be32(b, 84) == g.agsize && Be32(b, 88) == g.agcount && Be32(b, 92) == 0 && Be32(b, 96) == g.logblocks
    && Be16(b, 102) == g.sectsize && Be16(b, 104) == g.inodesize && Be16(b, 106) == g.blocksize / g.inodesize
    && Pow2(b[120]) == g.blocksize && Pow2(b[121]) == g.sectsize && Pow2(b[122]) == g.inodesize
    && Pow2(b[123]) == g.blocksize / g.inodesize && b[124] == g.agblklog && b[125] == 0
  }

  /** Features, and the log's units. */
  predicate FeaturesAre(b: seq<byte>, g: Geom)
    requires |b| >= 264
  {
    var f, big := g.features, g.sectsize > 512;
    && Be16(b, 100) == (if big then 0xbca5 else 0xb4a5)
    && b[193] == (if big then b[121] else 0) && Be16(b, 194) == (if big then g.sectsize else 0)
    && Be32(b, 196) == (if big then g.blocksize else 1)
    && Be32(b, 200) == 0x18a && Be32(b, 204) == 0x18a && Be32(b, 208) == 0
    && Be32(b, 212) == One(f.finobt) + 2 * One(f.rmapbt) + 4 * One(f.reflink) + 8 * One(f.inobtcount)
    && Be32(b, 216) == 1 + 2 * One(f.sparse) + 8 * One(f.bigtime) + 0x20 * One(f.nrext64)
    && Be32(b, 220) == 0
  }

  /** Inodes: how many, where the first three are, and how they are aligned. */
  predicate InodesAre(b: seq<byte>, g: Geom, s: SbState)
    requires |b| >= 264
  {
    && Be64(b, 56) == s.rootino && Be64(b, 64) == s.rbmino && Be64(b, 72) == s.rsumino
    && Be64(b, 128) == s.icount && Be64(b, 136) == s.ifree && Be64(b, 144) == s.fdblocks && Be64(b, 152) == 0
    && Be64(b, 160) == 0 && Be64(b, 168) == 0 && Be64(b, 232) == 0 && Be64(b, 240) == 0
    && Be32(b, 180) == (if g.features.sparse then 64 * g.inodesize / g.blocksize
                        else 8192 * (g.inodesize / 256) / g.blocksize)
    && Be32(b, 184) == 0 && Be32(b, 188) == 0
    && Be32(b, 228) == (if g.features.sparse then 8192 * (g.inodesize / 256) / g.blocksize else 0)
    && b[126] == One(s.inprogress) && b[127] == s.imaxpct
    && (if g.blocksize < 4096 then Pow2(b[192]) * g.blocksize == 4096 else b[192] == 0)
    && b[32..48] == s.uuid && b[108..120] == s.volume
  }

  lemma AllParts(b: seq<byte>, g: Geom, s: SbState)
    requires g.logAgbno < Pow2(g.agblklog) && HoldsAll(b, Fields(g, s))
    ensures HoldsAll(b, Names(g, s)) && HoldsAll(b, SizeFields(g, s)) && HoldsAll(b, LogFields(g, s))
    ensures HoldsAll(b, Counters(g, s)) && HoldsAll(b, FeatureFields(g))
  {
    hide Names, SizeFields, LogFields, Counters, FeatureFields, HoldsAll, Pow2;
    HoldsParts(b, g, s);
    var n, z, l, c, f := Names(g, s), SizeFields(g, s), LogFields(g, s), Counters(g, s), FeatureFields(g);
    assert Fields(g, s) == n + z + l + c + f;
    HoldsPart(b, Fields(g, s), n + z + l, c, f);
  }

  lemma NamesIn(b: seq<byte>, g: Geom, s: SbState)
    requires |b| >= 264 && g.logAgbno < Pow2(g.agblklog) && HoldsAll(b, Names(g, s)) && |s.uuid| == 16
    ensures Be32(b, 0) == SB_MAGIC && Be32(b, 4) == g.blocksize && Be64(b, 8) == g.dblocks && Be64(b, 16) == 0
    ensures Be64(b, 24) == 0 && b[32..48] == s.uuid && Be64(b, 48) == LogStart(g)
    ensures Be64(b, 56) == s.rootino && Be64(b, 64) == s.rbmino && Be64(b, 72) == s.rsumino
  {
    hide Be32, Be64, LogStart, Pow2;
    var fs := Names(g, s);
    assert Holds(b, fs[0]) && Holds(b, fs[1]) && Holds(b, fs[2]) && Holds(b, fs[3]) && Holds(b, fs[4]);
    assert Holds(b, fs[5]) && Holds(b, fs[6]) && Holds(b, fs[7]) && Holds(b, fs[8]) && Holds(b, fs[9]);
  }

  lemma SizesIn(b: seq<byte>, g: Geom, s: SbState)
    requires |b| >= 264 && HoldsAll(b, SizeFields(g, s)) && |s.volume| == 12
    ensures Be32(b, 80) == RextSize(g) && Be32(b, 84) == g.agsize && Be32(b, 88) == g.agcount && Be32(b, 92) == 0
    ensures Be32(b, 96) == g.logblocks && Be16(b, 100) == VersionNum(g) && Be16(b, 102) == g.sectsize
    ensures Be16(b, 104) == g.inodesize && Be16(b, 106) == InoPerBlock(g) && b[108..120] == s.volume
  {
    hide Be16, Be32, RextSize, InoPerBlock, VersionNum;
    var fs := SizeFields(g, s);
    assert Holds(b, fs[0]) && Holds(b, fs[1]) && Holds(b, fs[2]) && Holds(b, fs[3]) && Holds(b, fs[4]);
    assert Holds(b, fs[5]) && Holds(b, fs[6]) && Holds(b, fs[7]) && Holds(b, fs[8]) && Holds(b, fs[9]);
  }

  lemma LogsIn(b: seq<byte>, g: Geom, s: SbState)
    requires |b| >= 264 && HoldsAll(b, LogFields(g, s))
    ensures b[120] == Log2(g.blocksize) && b[121] == Log2(g.sectsize) && b[122] == Log2(g.inodesize)
    ensures b[123] == Log2(InoPerBlock(g)) && b[124] == g.agblklog && b[125] == 0
    ensures b[126] == One(s.inprogress) && b[127] == s.imaxpct
  {
    hide Log2, InoPerBlock;
    var fs := LogFields(g, s);
    assert Holds(b, fs[0]) && Holds(b, fs[1]) && Holds(b, fs[2]) && Holds(b, fs[3]);
    assert Holds(b, fs[4]) && Holds(b, fs[5]) && Holds(b, fs[6]) && Holds(b, fs[7]);
  }

  lemma CountersIn(b: seq<byte>, g: Geom, s: SbState)
    requires |b| >= 264 && HoldsAll(b, Counters(g, s))
    ensures Be64(b, 128) == s.icount && Be64(b, 136) == s.ifree && Be64(b, 144) == s.fdblocks && Be64(b, 152) == 0
    ensures Be64(b, 160) == 0 && Be64(b, 168) == 0 && Be32(b, 180) == g.InoAlignmt()
    ensures Be32(b, 184) == 0 && Be32(b, 188) == 0 && b[192] == Max(12 - Log2(g.blocksize), 0)
  {
    hide Be32, Be64, Log2, Geometry.Geometry.InoAlignmt;
    var fs := Counters(g, s);
    assert Holds(b, fs[0]) && Holds(b, fs[1]) && Holds(b, fs[2]) && Holds(b, fs[3]) && Holds(b, fs[4]);
    assert Holds(b, fs[5]) && Holds(b, fs[6]) && Holds(b, fs[7]) && Holds(b, fs[8]) && Holds(b, fs[9]);
  }

  lemma FeaturesIn(b: seq<byte>, g: Geom)
    requires |b| >= 264 && HoldsAll(b, FeatureFields(g))
    ensures b[193] == (if g.sectsize > 512 then Log2(g.sectsize) else 0)
    ensures Be16(b, 194) == (if g.sectsize > 512 then g.sectsize else 0) && Be32(b, 196) == LogsUnit(g)
    ensures Be32(b, 200) == FEATURES2 && Be32(b, 204) == FEATURES2 && Be32(b, 208) == 0
    ensures Be32(b, 212) == RoCompat(g.features) && Be32(b, 216) == Incompat(g.features) && Be32(b, 220) == 0
    ensures Be32(b, 228) == (if g.features.sparse then g.ClusterAlign() else 0)
    ensures Be64(b, 232) == 0 && Be64(b, 240) == 0
  {
    hide Be16, Be32, Be64, Log2, LogsUnit, RoCompat, Incompat, Geometry.Geometry.ClusterAlign;
    var fs := FeatureFields(g);
    assert Holds(b, fs[0]) && Holds(b, fs[1]) && Holds(b, fs[2]) && Holds(b, fs[3]) && Holds(b, fs[4]);
    assert Holds(b, fs[5]) && Holds(b, fs[6]) && Holds(b, fs[7]) && Holds(b, fs[8]) && Holds(b, fs[9]);
    assert Holds(b, fs[10]) && Holds(b, fs[11]);
  }

  lemma MagicBytes(b: seq<byte>)
    requires |b| >= 264 && Be32(b, 0) == 0x5846_5342
    ensures b[0..4] == [0x58, 0x46, 0x53, 0x42]
  {
  }

  /** What the sizes are powers of. */
  lemma Logs(g: Geom, s: SbState)
    requires Encodable(g, s)
    ensures Pow2(Log2(g.blocksize)) == g.blocksize && Pow2(Log2(g.sectsize)) == g.sectsize
    ensures Pow2(Log2(g.inodesize)) == g.inodesize && Pow2(Log2(InoPerBlock(g))) == InoPerBlock(g)
  {
    SizesInRange(g, s);
    hide Pow2, Log2, Compute.PowerOfTwo;
    LogSmall(g.blocksize);
    LogSmall(g.sectsize);
    LogSmall(g.inodesize);
    InoPerBlockIs(g.blocksize, g.inodesize);
    LogSmall(InoPerBlock(g));
  }

  lemma DirLog(bs: nat)
    requires Supported(bs) && Pow2(Log2(bs)) == bs
    ensures var d := Max(12 - Log2(bs), 0); if bs < 4096 then Pow2(d) * bs == 4096 else d == 0
  {
    PowersToFourteen();
    hide Pow2, Log2;
    if bs == 1024 {
      LogIs(bs, 10);
    } else if bs == 2048 {
      LogIs(bs, 11);
    } else if bs == 4096 {
      LogIs(bs, 12);
    } else if bs == 8192 {
      LogIs(bs, 13);
    } else {
      LogIs(bs, 14);
    }
  }

  lemma PowersToFourteen()
    ensures Pow2(0) == 1 && Pow2(1) == 2 && Pow2(2) == 4 && Pow2(10) == 1024 && Pow2(11) == 2048 && Pow2(12) == 4096
    ensures Pow2(13) == 8192 && Pow2(14) == 16384
  {
  }

  lemma LogIs(n: nat, k: nat)
    requires Pow2(Log2(n)) == n && n == Pow2(k)
    ensures Log2(n) == k
  {
    hide Log2;
    if Log2(n) < k {
      Pow2Grows(Log2(n), k);
    } else if k < Log2(n) {
      Pow2Grows(k, Log2(n));
    }
  }

  lemma GeometryIn(b: seq<byte>, g: Geom, s: SbState)
    requires |b| >= 264 && Encodable(g, s) && g.logAgbno < Pow2(g.agblklog) && HoldsAll(b, Fields(g, s))
    ensures GeometryIs(b, g)
  {
    StatesFit(g, s);
    hide Encodable, Fields, HoldsAll, Names, SizeFields, LogFields, Counters, FeatureFields;
    hide Pow2, Log2, Be16, Be32, Be64;
    hide Supported;
    AllParts(b, g, s);
    NamesIn(b, g, s);
    SizesIn(b, g, s);
    LogsIn(b, g, s);
    Logs(g, s);
    MagicBytes(b);
  }

  lemma WordsAre(g: Geom)
    ensures VersionNum(g) == if g.sectsize > 512 then 0xbca5 else 0xb4a5
    ensures LogsUnit(g) == if g.sectsize > 512 then g.blocksize else 1
    ensures RoCompat(g.features) == One(g.features.finobt) + 2 * One(g.features.rmapbt)
                                    + 4 * One(g.features.reflink) + 8 * One(g.features.inobtcount)
    ensures Incompat(g.features) == 1 + 2 * One(g.features.sparse) + 8 * One(g.features.bigtime)
                                    + 0x20 * One(g.features.nrext64)
  {
  }

  lemma AlignsAre(g: Geom)
    ensures g.ClusterAlign() == 8192 * (g.inodesize / 256) / g.blocksize
    ensures g.InoAlignmt() == if g.features.sparse then 64 * g.inodesize / g.blocksize else g.ClusterAlign()
  {
  }

  lemma FeatureWordsIn(b: seq<byte>, g: Geom, s: SbState)
    requires |b| >= 264 && Encodable(g, s) && g.logAgbno < Pow2(g.agblklog) && HoldsAll(b, Fields(g, s))
    ensures FeaturesAre(b, g)
  {
    StatesFit(g, s);
    hide Encodable, Fields, HoldsAll, Names, SizeFields, LogFields, Counters, FeatureFields;
    hide Pow2, Log2, Be16, Be32, Be64;
    hide Supported, InoPerBlock, RextSize, VersionNum, LogsUnit, RoCompat, Incompat, One;
    hide Geometry.Geometry.ClusterAlign;
    WordsAre(g);
    AllParts(b, g, s);
    SizesIn(b, g, s);
    LogsIn(b, g, s);
    FeaturesIn(b, g);
  }

  lemma InodesIn(b: seq<byte>, g: Geom, s: SbState)
    requires |b| >= 264 && Encodable(g, s) && g.logAgbno < Pow2(g.agblklog) && HoldsAll(b, Fields(g, s))
    ensures InodesAre(b, g, s)
  {
    StatesFit(g, s);
    hide Encodable, Fields, HoldsAll, Names, SizeFields, LogFields, Counters, FeatureFields;
    hide Pow2, Log2, Be16, Be32, Be64;
    hide InoPerBlock, RextSize, VersionNum, RoCompat, Incompat, LogsUnit, LogStart, One;
    hide Geometry.Geometry.ClusterAlign, Geometry.Geometry.InoAlignmt;
    AlignsAre(g);
    AllParts(b, g, s);
    NamesIn(b, g, s);
    SizesIn(b, g, s);
    LogsIn(b, g, s);
    CountersIn(b, g, s);
    FeaturesIn(b, g);
    Logs(g, s);
    DirLog(g.blocksize);
  }

  /** Everything in an encoded superblock, by its offset. */
  lemma EncodedInBytes(b: seq<byte>, g: Geom, s: SbState)
    requires |b| >= 264 && Encodable(g, s) && g.logAgbno < Pow2(g.agblklog) && HoldsAll(b, Fields(g, s))
    ensures GeometryIs(b, g) && FeaturesAre(b, g) && InodesAre(b, g, s)
  {
    hide Encodable, Fields, HoldsAll, Pow2, GeometryIs, FeaturesAre, InodesAre;
    GeometryIn(b, g, s);
    FeatureWordsIn(b, g, s);
    InodesIn(b, g, s);
  }

  lemma StatesFit(g: Geom, s: SbState)
    requires Encodable(g, s)
    ensures |s.uuid| == 16 && |s.volume| == 12 && Supported(g.blocksize)
  {
    hide Compute.PowerOfTwo, Compute.LogBlocks, Pow2;
  }

  // ---------------------------------------------------------------------------------------
  // What the parser accepts.

  /** Exactly these: the magic, version 5, and sizes that make sense together. */
  lemma ParsedIff(b: seq<byte>)
    requires |b| >= 264
    ensures var xfs := b[0..4] == [0x58, 0x46, 0x53, 0x42] && b[101] % 16 == 5;
            var bs, ss, ino := Be32(b, 4), Be16(b, 102), Be16(b, 104);
            var sane :=
              && bs in {512, 1024, 2048, 4096, 8192, 16384, 32768, 65536} && Pow2(b[120]) == bs
              && ss in {512, 1024, 2048, 4096, 8192, 16384, 32768} && ss <= bs && ino in {256, 512, 1024, 2048}
              && Be32(b, 88) > 0 && 0 < Be32(b, 84) <= Pow2(b[124]) && b[124] < 32
              && Be64(b, 8) <= Be32(b, 88) * Be32(b, 84);
            if !xfs then Parse(b) == Err(NotXfs)
            else if !sane then Parse(b) == Err(Corrupt)
            else Parse(b).Ok?
  {
    hide Pow2, Be16, Be32, Be64, Compute.InRange;
    Version(b);
    MagicIff(b);
    PowersIn(Be32(b, 4));
    PowersIn(Be16(b, 102));
    PowersIn(Be16(b, 104));
  }

  lemma Version(b: seq<byte>)
    requires |b| >= 264
    ensures Be16(b, 100) % 16 == b[101] % 16
  {
    var hi := b[100] as nat;
    assert Be16(b, 100) == 16 * hi * 16 + b[101];
    assert b[101] == b[101] / 16 * 16 + b[101] % 16;
    DivModUnique(Be16(b, 100), 16, 16 * hi + b[101] / 16, b[101] % 16);
  }

  lemma MagicIff(b: seq<byte>)
    requires |b| >= 264
    ensures Be32(b, 0) == SB_MAGIC <==> b[0..4] == [0x58, 0x46, 0x53, 0x42]
  {
    if b[0..4] == [0x58, 0x46, 0x53, 0x42] {
      assert b[0..4][0] == b[0] && b[0..4][1] == b[1] && b[0..4][2] == b[2] && b[0..4][3] == b[3];
    }
  }

  lemma PowersIn(n: nat)
    ensures Compute.InRange(n, 512, 0x1_0000) <==> n in {512, 1024, 2048, 4096, 8192, 16384, 32768, 65536}
    ensures Compute.InRange(n, 512, 0x8000) <==> n in {512, 1024, 2048, 4096, 8192, 16384, 32768}
    ensures Compute.InRange(n, 256, 2048) <==> n in {256, 512, 1024, 2048}
  {
    PowersUp();
    hide Compute.PowerOfTwo;
    if Compute.PowerOfTwo(n) && n <= 0x1_0000 {
      Compute.PowersListed(n);
    }
  }

  lemma PowersUp()
    ensures forall n :: n in {256, 512, 1024, 2048, 4096, 8192, 16384, 32768, 65536} ==> Compute.PowerOfTwo(n)
  {
    assert Compute.PowerOfTwo(256) && Compute.PowerOfTwo(512) && Compute.PowerOfTwo(1024) && Compute.PowerOfTwo(2048);
    assert Compute.PowerOfTwo(4096) && Compute.PowerOfTwo(8192) && Compute.PowerOfTwo(16384);
    assert Compute.PowerOfTwo(32768) && Compute.PowerOfTwo(65536);
  }

  // ---------------------------------------------------------------------------------------
  // What a rewrite leaves, and what is refused.

  /** Outside the identity, the quota inodes, the second feature word and the checksum. */
  predicate Untouched(i: nat) {
    i < 32 || 48 <= i < 160 || 176 <= i < 204 || 208 <= i < 216 || 220 <= i < 224 || 228 <= i < 232
    || 240 <= i < 248 || 264 <= i
  }

  function NullIfZero(n: nat): nat {
    if n == 0 then 0xffff_ffff_ffff_ffff else n
  }

  /** A superblock given `to`, and written back, byte by byte. */
  lemma RestampInBytes(was: seq<byte>, now: seq<byte>, sectsize: nat, meta: Uuid, to: Uuid)
    requires IsRestamped(was, now, sectsize, meta, to)
    ensures |was| == |now| && now[32..48] == to
    ensures var word := Be32(was, 216);
            if word / 4 % 2 == 0 && to != meta then Be32(now, 216) == word + 4 && now[248..264] == was[32..48]
            else if word / 4 % 2 == 1 && to == meta then
              Be32(now, 216) == word - 4 && forall i :: 248 <= i < 264 ==> now[i] == 0
            else Be32(now, 216) == word && now[248..264] == was[248..264]
    ensures Be64(now, 160) == NullIfZero(Be64(was, 160)) && Be64(now, 168) == NullIfZero(Be64(was, 168))
    ensures Be64(now, 232) == NullIfZero(Be64(was, 232)) && Be32(now, 204) == Be32(was, 200)
    ensures forall i :: 0 <= i < |was| && Untouched(i) ==> now[i] == was[i]
  {
    hide Be32, Be64, Checksum.Sealed;
    var a, b := Sb(was), Sb(now);
    assert b == a.Restamped(meta, to);
    if a.HasMeta() && to == meta {
      assert now[248..264] == NIL_UUID;
      forall i | 248 <= i < 264
        ensures now[i] == 0
      {
        assert now[248..264][i - 248] == NIL_UUID[i - 248];
      }
    }
  }

  /** Which superblocks are refused, by the bits of two words and two numbers. */
  lemma RefusedInBytes(b: seq<byte>)
    requires |b| >= 264
    ensures OpenError(Sb(b)) ==
            if Be32(b, 216) / 0x10 % 2 == 1 then Some(NeedsRecovery)
            else if Be32(b, 216) >= 0x40 || Be64(b, 16) != 0 || Be64(b, 48) == 0 then Some(Unsupported)
            else None
  {
    hide Be32, Be64;
  }
}
