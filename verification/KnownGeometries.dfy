/** Particular geometries: the defaults, and those whose groups cannot all be laid out or planned. */
module KnownGeometries {
  import opened Prelude
  import opened Geometry
  import opened AgGeometry
  import opened AgPlan
  import opened Compute
  import opened Planning
  import SuperblockCodec

  lemma StagesCompute(
      p: Params, deviceSize: nat, logicalSector: nat, physicalSector: nat,
      sizes: (nat, nat, nat), d0: nat, asked: (int, int), ags: (nat, pos, pos))
    requires p.imaxpct.None? && p.volume.None?
    requires Sizes(p, logicalSector, physicalSector) == Ok(sizes) && sizes.0 > 0 && sizes.1 > 0 && sizes.2 > 0
    requires DataBlocks(sizes.0, p.size, deviceSize) == Ok(d0)
    requires AskedAgs(sizes.0, d0, p.agsize, p.agcount) == Ok(asked) && asked.0 > 0 && asked.1 > 0
    requires Trimmed(sizes.0, d0, asked.0, asked.1, p.agcount.Some?) == Ok(ags)
    ensures Computed(p, deviceSize, logicalSector, physicalSector) == Sized(WithoutLog(sizes, ags, p.features))
  {
  }

  /** The sizes of blocks of `bs` bytes, on 512-byte sectors, with nothing else asked for. */
  lemma SizesAsked(p: Params, bs: nat)
    requires bs in {4096, 16384} && p.sectorSize.None? && p.inodeSize.None?
    requires if p.blockSize.Some? then p.blockSize.value == bs else bs == 4096
    requires p.features.inobtcount ==> p.features.finobt
    ensures Sizes(p, 512, 512) == Ok((bs, 512, 512))
  {
    PowersUsed();
    hide PowerOfTwo;
  }

  lemma PowersUsed()
    ensures PowerOfTwo(512) && PowerOfTwo(4096) && PowerOfTwo(16384)
  {
    TwoToThe(9);
    TwoToThe(12);
    TwoToThe(14);
    hide PowerOfTwo;
    assert Pow2(9) == 512 && Pow2(12) == 4096 && Pow2(14) == 16384;
  }

  /** No parameters given. */
  predicate Defaults(p: Params) {
    p == Params(None, None, None, None, None, None, None, None, p.features)
    && (p.features.inobtcount ==> p.features.finobt)
  }

  /** Of 512-byte sectors, with these groups and this log. */
  predicate IsDefault(
      r: Result<Geometry>, agcount: nat, agsize: nat, dblocks: nat, logblocks: nat, imaxpct: nat)
  {
    && r.Ok?
    && r.value.blocksize == 4096 && r.value.sectsize == 512 && r.value.inodesize == 512
    && r.value.agcount == agcount && r.value.agsize == agsize
    && r.value.dblocks == dblocks && r.value.logblocks == logblocks
    && Imaxpct(None, r.value.blocksize, dblocks) == imaxpct
  }

  lemma DefaultLog(g: Geometry, logblocks: nat)
    requires g.blocksize == 4096 && g.sectsize == 512 && g.inodesize == 512
    requires g.dblocks >= 76800 && g.agcount >= 2
    requires logblocks == Min(Max(g.dblocks / 2048, 16384), 521728) && logblocks + 16 <= g.agsize
    ensures Sized(g) == Ok(WithLog(g, logblocks))
  {
    LogBlocksIs(g);
    SmallPlaces(g);
    Positions(g);
    hide LogBlocks;
  }

  /** One row: blocks of data, of which some may be dropped, and the groups they are divided into. */
  lemma DefaultRun(p: Params, size: nat, agcount: pos, agsize: pos, dblocks: nat, logblocks: nat, n: pos)
    requires Defaults(p) && size / 4096 >= 76800 && dblocks >= 76800 && agcount >= 2
    requires DefaultAgSize(4096, size / 4096, false) == agsize && n == CeilDiv(size / 4096, agsize)
    requires Trimmed(4096, size / 4096, agsize, n, false) == Ok((dblocks, agsize, agcount))
    requires logblocks == Min(Max(dblocks / 2048, 16384), 521728) && logblocks + 16 <= agsize
    ensures IsDefault(Computed(p, size, 512, 512), agcount, agsize, dblocks, logblocks, DefaultPct(dblocks))
  {
    var sizes, ags := (4096, 512, 512), (dblocks, agsize, agcount);
    assert DataBlocks(4096, None, size) == Ok(size / 4096);
    hide LogFrom, Sizes, Sized, LogBlocks, DefaultAgSize, Trimmed, DataBlocks;
    SizesAsked(p, 4096);
    StagesCompute(p, size, 512, 512, sizes, size / 4096, (agsize, n), ags);
    DefaultLog(WithoutLog(sizes, ags, p.features), logblocks);
  }

  function DefaultPct(dblocks: nat): nat {
    if dblocks < 268435456 then 25 else if dblocks < 13421772800 then 5 else 1
  }

  function DefaultLogBlocks(dblocks: nat): nat {
    Min(Max(dblocks / 2048, 16384), 521728)
  }

  lemma QuarterSize(d: nat)
    requires 76800 <= d < 0x4000_0000 && d % 4 == 0
    ensures DefaultAgSize(4096, d, false) == d / 4 && CeilDiv(d, d / 4) == 4
    ensures Trimmed(4096, d, d / 4, 4, false) == Ok((d, d / 4, 4))
  {
    Powers();
    hide Pow2;
    assert AgLog(4096, d, false) == Some(2);
    DivModUnique(d, d / 4, 4, 0);
    DivModUnique(d + d / 4 - 1, d / 4, 4, d / 4 - 1);
  }

  /** From 300 MiB to 4 TiB of whole quarters: four groups. */
  lemma QuarterGroups(p: Params, d: nat)
    requires Defaults(p) && 76800 <= d < 0x4000_0000 && d % 4 == 0
    ensures IsDefault(Computed(p, d * 4096, 512, 512), 4, d / 4, d, DefaultLogBlocks(d), DefaultPct(d))
  {
    QuarterSize(d);
    hide Computed, DefaultAgSize, Trimmed, CeilDiv;
    DefaultRun(p, d * 4096, 4, d / 4, d, DefaultLogBlocks(d), 4);
  }

  lemma MaximalSize(d: nat, n: pos, rest: nat)
    requires d >= 0x4000_0000 && d == n * 0xfff_ffff + rest && 0 < rest < 4096 && n <= MAX_AGNUMBER
    ensures DefaultAgSize(4096, d, false) == 0xfff_ffff && CeilDiv(d, 0xfff_ffff) == n + 1
    ensures Trimmed(4096, d, 0xfff_ffff, n + 1, false) == Ok((d - rest, 0xfff_ffff, n))
  {
    assert AgMax(4096) == 0xfff_ffff;
    DivModUnique(d, 0xfff_ffff, n, rest);
    DivModUnique(d + 0xfff_fffe, 0xfff_ffff, n + 1, rest - 1);
  }

  /** From 4 TiB: maximal groups, and a few blocks over dropped. */
  lemma MaximalGroups(p: Params, d: nat, n: pos, rest: nat)
    requires Defaults(p) && d >= 0x4000_0000 && d == n * 0xfff_ffff + rest && 0 < rest < 4096 && n <= MAX_AGNUMBER
    ensures IsDefault(Computed(p, d * 4096, 512, 512), n, 0xfff_ffff, d - rest, DefaultLogBlocks(d - rest),
                      DefaultPct(d - rest))
  {
    MaximalSize(d, n, rest);
    hide Computed, DefaultAgSize, Trimmed, CeilDiv;
    DefaultRun(p, d * 4096, n, 0xfff_ffff, d - rest, DefaultLogBlocks(d - rest), n + 1);
  }

  /** The reference table of default sizes: groups, blocks in each, data blocks, log blocks, inode share. */
  lemma DefaultTable(p: Params)
    requires Defaults(p)
    ensures IsDefault(Computed(p, 300 * MIB, 512, 512), 4, 19200, 76800, 16384, 25)
    ensures IsDefault(Computed(p, 512 * MIB, 512, 512), 4, 32768, 131072, 16384, 25)
    ensures IsDefault(Computed(p, GIB, 512, 512), 4, 65536, 262144, 16384, 25)
    ensures IsDefault(Computed(p, 4 * GIB, 512, 512), 4, 262144, 1048576, 16384, 25)
    ensures IsDefault(Computed(p, 16 * GIB, 512, 512), 4, 1048576, 4194304, 16384, 25)
    ensures IsDefault(Computed(p, 100 * GIB, 512, 512), 4, 6553600, 26214400, 16384, 25)
    ensures IsDefault(Computed(p, TIB, 512, 512), 4, 67108864, 268435456, 131072, 5)
    ensures IsDefault(Computed(p, 16 * TIB, 512, 512), 16, 268435455, 4294967280, 521728, 5)
    ensures IsDefault(Computed(p, 1024 * TIB, 512, 512), 1024, 268435455, 274877905920, 521728, 1)
  {
    hide Computed, IsDefault;
    QuarterGroups(p, 76800);
    QuarterGroups(p, 131072);
    QuarterGroups(p, 262144);
    QuarterGroups(p, 1048576);
    QuarterGroups(p, 4194304);
    QuarterGroups(p, 26214400);
    QuarterGroups(p, 268435456);
    MaximalGroups(p, 4294967296, 16, 16);
    MaximalGroups(p, 274877906944, 1024, 1024);
  }

  /** Where everything is on a 512 MiB filesystem with every feature on. */
  lemma DefaultPositions(p: Params, g: Geometry)
    requires Defaults(p) && p.features == Features(true, true, true, true, true, true, true)
    requires Computed(p, 512 * MIB, 512, 512) == Ok(g)
    ensures g.PreallocBlocks() == 7 && g.logagno == 2 && g.logAgbno == 7 && g.agblklog == 15
    ensures g.RootChunkAgbno() == 16 && g.InitialFdblocks() == 114660 && g.AgflSize() == 119
    ensures g.InoAlignmt() == 8 && g.ClusterAlign() == 4
    ensures g.logAgbno < Pow2(g.agblklog) && SuperblockCodec.LogStart(g) == 65543
    ensures SuperblockCodec.Ino(g.agblklog, 3, 0, g.RootChunkAgbno(), 0) == 128
  {
    QuarterGroups(p, 131072);
    ComputedShapes(p, 512 * MIB, 512, 512, g);
    hide Computed, LogBlocks, Blocks, AgMin, AgMax, Pow2, LogFrom;
    ShiftOf512();
    assert Pow2(3) == 8;
    Placed512(g);
  }

  lemma ShiftOf512()
    ensures Pow2(15) == 32768 && LogFrom(32768, 0) == 15
  {
    SuperblockCodec.LogOfPower(15);
    assert Pow2(15) == 32768;
  }

  lemma Placed512(g: Geometry)
    requires g.blocksize == 4096 && g.sectsize == 512 && g.inodesize == 512
    requires g.features == Features(true, true, true, true, true, true, true)
    requires g.dblocks == 131072 && g.agsize == 32768 && g.agcount == 4 && g.logblocks == 16384 && g.logagno == 2
    ensures g.PreallocBlocks() == 7 && g.RootChunkAgbno() == 16 && g.InitialFdblocks() == 114660
    ensures g.AgflSize() == 119 && g.InoAlignmt() == 8 && g.ClusterAlign() == 4
  {
  }

  // ---------------------------------------------------------------------------------------
  // Geometries that go wrong.

  /** Blocks of 16 KiB in so many groups. */
  predicate CountAsked(p: Params, n: nat) {
    p == Params(None, Some(16384), None, None, Some(n), None, None, None, p.features)
    && (p.features.inobtcount ==> p.features.finobt)
  }

  /** Whole groups of 8192 blocks in all, however many were asked for. */
  lemma CountedComputes(p: Params, n: pos, d: nat)
    requires CountAsked(p, n) && 1 < n < 0x1_0000 && 0x400_0000 <= d < 0x1000_0000
    requires d % 8192 == 0 && CeilDiv(d, n) == 8192
    ensures var r := Computed(p, d * 16384, 512, 512);
            r.Ok? && r.value.agcount == n && r.value.agsize == 8192 && r.value.dblocks == d
  {
    SizesAsked(p, 16384);
    var sizes, ags := (16384, 512, 512), (d, 8192 as pos, n);
    assert DataBlocks(16384, None, d * 16384) == Ok(d);
    assert Trimmed(16384, d, 8192, n, true) == Ok(ags);
    hide Computed, Sizes, LogFrom, Sized, Trimmed, DataBlocks;
    StagesCompute(p, d * 16384, 512, 512, sizes, d, (8192, n), ags);
    CountedIsSized(WithoutLog(sizes, ags, p.features));
  }

  lemma CountedIsSized(g: Geometry)
    requires Accepted(g.blocksize, g.sectsize, g.inodesize) && g.blocksize == 16384
    requires 0x400_0000 <= g.dblocks && g.agsize == 8192 && g.agcount > 1
    ensures Sized(g) == Ok(WithLog(g, LogBlocks(g)))
  {
    LogBlocksIs(g);
    SmallPlaces(g);
    Positions(g);
    hide LogBlocks;
  }

  /**
   On 1 TiB of 16 KiB blocks, 8193 groups are accepted, of 8192 blocks each, and the last one is
   left with none at all: the first 8192 already cover the device.
   */
  lemma EmptyLastGroup(p: Params)
    requires CountAsked(p, 8193)
    ensures var r := Computed(p, TIB, 512, 512);
            r.Ok? && r.value.agcount == 8193 && r.value.AgBlocks(8192) == 0
  {
    hide Computed;
    CountedComputes(p, 8193, 0x400_0000);
  }

  /** And on 2 TiB 16386 are, of which the last would start a whole group past the end. */
  lemma LastGroupPastEnd(p: Params)
    requires CountAsked(p, 16386)
    ensures var r := Computed(p, 2 * TIB, 512, 512);
            r.Ok? && r.value.agcount == 16386 && r.value.AgBlocks(16385) == -8192
  {
    hide Computed;
    CountedComputes(p, 16386, 0x800_0000);
  }

  /** Every feature, and groups of so many blocks of 4 KiB. */
  predicate Grouped(p: Params, blocks: nat) {
    p == Params(None, None, None, None, None, Some(blocks * 4096), None, None,
                Features(true, true, true, true, true, true, true))
  }

  /** The computation for groups of a given size that divide the device but for a group not too small. */
  lemma GroupedComputes(p: Params, s: pos, n: pos, rest: nat)
    requires Grouped(p, s) && 4096 <= s < 0xfff_ffff && n < 0x1_0000
    requires 4096 <= rest <= s && n * s + rest >= 76800
    ensures Computed(p, (n * s + rest) * 4096, 512, 512) ==
            Sized(WithoutLog((4096, 512, 512), (n * s + rest, s, n + 1), p.features))
  {
    var d: nat := n * s + rest;
    SizesAsked(p, 4096);
    assert DataBlocks(4096, None, d * 4096) == Ok(d);
    assert Blocks(s * 4096, 4096) == s && s * 4096 % 4096 == 0;
    GroupedTrims(s, n, rest);
    hide Sizes, Sized, LogFrom, Computed, CeilDiv, Trimmed, DataBlocks;
    StagesCompute(p, d * 4096, 512, 512, (4096, 512, 512), d, (s, n + 1), (d, s, n + 1));
  }

  lemma GroupedTrims(s: pos, n: pos, rest: nat)
    requires 4096 <= s < 0xfff_ffff && n < 0x1_0000 && 4096 <= rest <= s
    ensures CeilDiv(n * s + rest, s) == n + 1
    ensures Trimmed(4096, n * s + rest, s, n + 1, false) == Ok((n * s + rest, s, n + 1))
  {
    var d := n * s + rest;
    assert (n + 1) * s == n * s + s;
    DivModUnique(d + s - 1, s, n + 1, rest - 1);
    if rest == s {
      DivModUnique(d, s, n + 1, 0);
    } else {
      DivModUnique(d, s, n, rest);
    }
    assert n * s >= s;
  }

  /**
   In 4092 groups of 16400 blocks with the reverse map on, the log is cut to its group and leaves
   five blocks for a list of six: the geometry is accepted and tiles, and a group cannot be planned.
   */
  lemma FullLogGroup(p: Params)
    requires Grouped(p, 16400)
    ensures var r := Computed(p, 4092 * 16400 * 4096, 512, 512);
            && r.Ok? && Tiled(r.value) && r.value.logblocks == 16388
            && !LogLeavesRoom(r.value) && !PlanFits(r.value, r.value.logagno)
  {
    GroupedComputes(p, 16400, 4091, 16400);
    var g := WithoutLog((4096, 512, 512), (4092 * 16400, 16400, 4092), p.features);
    GroupedLog(g, 16388);
    hide Computed, Sized, LogBlocks, LogFrom;
    FullIsNotPlanned(WithLog(g, 16388));
  }

  lemma GroupedLog(g: Geometry, logblocks: nat)
    requires g.blocksize == 4096 && g.sectsize == 512 && g.inodesize == 512
    requires g.dblocks >= 76800 && g.agcount >= 2 && g.agsize >= 4096
    requires logblocks == Min(Min(Max(g.dblocks / 2048, 16384), g.AgMaxUsable() - 1), 521728) && logblocks >= 16384
    ensures Sized(g) == Ok(WithLog(g, logblocks))
  {
    LogBlocksIs(g);
    SmallPlaces(g);
    Positions(g);
    hide LogBlocks;
  }

  lemma FullIsNotPlanned(g: Geometry)
    requires g.features == Features(true, true, true, true, true, true, true)
    requires g.blocksize == 4096 && g.sectsize == 512 && g.inodesize == 512
    requires g.agcount > 1 && g.logagno < g.agcount && 0 <= g.AgBlocks(g.logagno) < TWO_32
    requires g.logAgbno == g.PreallocBlocks() && g.logblocks > 0
    requires g.AgBlocks(g.logagno) < 13 + g.logblocks
    ensures !LogLeavesRoom(g) && !PlanFits(g, g.logagno)
  {
    Positions(g);
    InitialFreeIs(g, g.logagno, 0);
    NoTotal();
  }

  /** With two groups the log is in the last one: 16390 blocks of it hold the log but not the list as well. */
  lemma ShortLogGroup(p: Params)
    requires Grouped(p, 61000)
    ensures var r := Computed(p, (61000 + 16390) * 4096, 512, 512);
            && r.Ok? && Tiled(r.value) && r.value.logagno == 1 && r.value.AgBlocks(1) == 16390
            && r.value.logblocks == 16384
            && !LogLeavesRoom(r.value) && !PlanFits(r.value, 1)
  {
    GroupedComputes(p, 61000, 1, 16390);
    var g := WithoutLog((4096, 512, 512), (77390, 61000, 2), p.features);
    GroupedLog(g, 16384);
    hide Computed, Sized, LogBlocks, LogFrom;
    FullIsNotPlanned(WithLog(g, 16384));
  }
}
