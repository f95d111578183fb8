/** Choosing the geometry: every check on the parameters, and the log's size and place. */
module Compute {
  import opened Prelude
  import opened Geometry
  import opened AgGeometry
  import opened AgPlan

  datatype Params = Params(
    size: Option<nat>,
    blockSize: Option<nat>,
    sectorSize: Option<nat>,
    inodeSize: Option<nat>,
    agcount: Option<nat>,
    agsize: Option<nat>,
    imaxpct: Option<nat>,
    volume: Option<string>,
    features: Features)

  predicate PowerOfTwo(n: nat) {
    n == 1 || (n > 0 && n % 2 == 0 && PowerOfTwo(n / 2))
  }

  predicate InRange(n: nat, lo: nat, hi: nat) {
    PowerOfTwo(n) && lo <= n <= hi
  }

  /** The sector size a device gets when none is asked for. */
  function DefaultSector(bs: nat, logicalSector: nat, physicalSector: nat): nat {
    var logical := Max(logicalSector, MIN_SECTORSIZE);
    var asked := Max(physicalSector, logical);
    var physical := if asked > MAX_SECTORSIZE then logical else asked;
    if bs < physical && bs >= logical then logical else physical
  }

  /** The block, sector and inode sizes, with every check made on them. */
  function Sizes(p: Params, logicalSector: nat, physicalSector: nat): Result<(nat, nat, nat)> {
    var bs := if p.blockSize.Some? then p.blockSize.value else 4096;
    var sect := if p.sectorSize.Some? then p.sectorSize.value else DefaultSector(bs, logicalSector, physicalSector);
    var inode := if p.inodeSize.Some? then p.inodeSize.value else 512;
    if p.features.inobtcount && !p.features.finobt then Err(InvalidParams)
    else if !InRange(bs, 512, MAX_BLOCKSIZE) || bs < MIN_CRC_BLOCKSIZE then Err(InvalidParams)
    else if bs > MAX_SUPPORTED_BLOCKSIZE then Err(Unsupported)
    else if !InRange(sect, MIN_SECTORSIZE, MAX_SECTORSIZE) || bs < sect then Err(InvalidParams)
    else if sect < Max(logicalSector, MIN_SECTORSIZE) then Err(InvalidParams)
    else if !InRange(inode, 512, DINODE_MAX_SIZE) || inode > bs / 2 then Err(InvalidParams)
    else Ok((bs, sect, inode))
  }

  /** Data blocks asked for or found, before any are dropped. */
  function DataBlocks(bs: pos, size: Option<nat>, deviceSize: nat): Result<nat> {
    var blocks := Blocks(if size.Some? then size.value else deviceSize, bs);
    if blocks > Blocks(deviceSize, bs) || blocks < AgMin(bs) then Err(InvalidParams) else Ok(blocks)
  }

  /** A 2048th of the data, no less than 64 MiB, within a group and within the format's limits. */
  function LogBlocks(g: Geometry): int {
    var bs := g.blocksize;
    var ratio := Blocks(g.dblocks * bs / 2048, bs);
    var capped := Min(Min(Max(ratio, Blocks(64 * MIB, bs)), g.AgMaxUsable() - 1), MAX_LOG_BLOCKS);
    if capped * bs > MAX_LOG_BYTES then Blocks(MAX_LOG_BYTES, bs) else capped
  }

  /** The same for group 0, which also holds the root inode chunk. */
  function LogBlocksIn(g: Geometry, agno: nat): int {
    if agno == 0 then Min(LogBlocks(g), g.AgMaxUsable() - 1 - g.ChunkBlocks() * 4) else LogBlocks(g)
  }

  /** What is refused once the log has been sized. */
  predicate Usable(g: Geometry) {
    && g.dblocks >= Blocks(300 * MIB, g.blocksize)
    && g.logblocks >= Blocks(64 * MIB, g.blocksize)
    && g.agcount >= 2
  }

  /** Before the log is sized. */
  function WithoutLog(sizes: (nat, nat, nat), ags: (nat, pos, pos), f: Features): Geometry
    requires sizes.0 > 0 && sizes.1 > 0 && sizes.2 > 0
  {
    Geometry(sizes.0, sizes.1, sizes.2, ags.0, ags.1, ags.2, LogFrom(ags.1, 0), 0, 0, 0, f)
  }

  function WithLog(g: Geometry, logblocks: nat): Geometry {
    Geometry(g.blocksize, g.sectsize, g.inodesize, g.dblocks, g.agsize, g.agcount, g.agblklog,
             logblocks, g.agcount / 2, g.PreallocBlocks(), g.features)
  }

  /** The geometry with its log, an internal one of the default size. */
  function Sized(g: Geometry): Result<Geometry> {
    if g.dblocks < Blocks(300 * MIB, g.blocksize) then Err(Unsupported)
    else if LogBlocks(g) > g.agsize - g.PreallocBlocks() || LogBlocksIn(g, g.agcount / 2) < 0 then Err(InvalidParams)
    else
      var sized := WithLog(g, LogBlocksIn(g, g.agcount / 2));
      if Usable(sized) then Ok(sized) else Err(InvalidParams)
  }

  function Computed(p: Params, deviceSize: nat, logicalSector: nat, physicalSector: nat): Result<Geometry> {
    var sizes :- Sizes(p, logicalSector, physicalSector);
    var d0 :- DataBlocks(sizes.0, p.size, deviceSize);
    var asked :- AskedAgs(sizes.0, d0, p.agsize, p.agcount);
    if asked.0 <= 0 || asked.1 <= 0 then Err(InvalidParams)
    else
      var ags :- Trimmed(sizes.0, d0, asked.0, asked.1, p.agcount.Some?);
      if p.imaxpct.Some? && p.imaxpct.value > 100 then Err(InvalidParams)
      else if p.volume.Some? && |p.volume.value| > 12 then Err(InvalidParams)
      else Sized(WithoutLog(sizes, ags, p.features))
  }

  /** The share of space inodes may take, in percent: as asked for, or by size. */
  function Imaxpct(asked: Option<nat>, bs: pos, dblocks: nat): nat {
    if asked.Some? then asked.value
    else if dblocks < Blocks(TIB, bs) then 25
    else if dblocks < Blocks(50 * TIB, bs) then 5
    else 1
  }

  // ---------------------------------------------------------------------------------------
  // What the checks leave.

  lemma {:induction false} PowersListed(n: nat)
    requires PowerOfTwo(n) && n <= 0x1_0000
    ensures n in {1, 2, 4, 8, 16, 32, 64, 128, 256, 512, 1024, 2048, 4096, 8192, 16384, 32768, 65536}
  {
    if n > 1 {
      PowersListed(n / 2);
    }
  }

  /** The sizes a geometry can have. */
  predicate Accepted(bs: nat, sect: nat, inode: nat) {
    Supported(bs) && 512 <= sect <= bs && inode in {512, 1024, 2048} && 2 * inode <= bs
  }

  lemma SizesAreAccepted(p: Params, logicalSector: nat, physicalSector: nat)
    requires Sizes(p, logicalSector, physicalSector).Ok?
    ensures var (bs, sect, inode) := Sizes(p, logicalSector, physicalSector).value;
            Accepted(bs, sect, inode) && sect >= logicalSector
  {
    var (bs, sect, inode) := Sizes(p, logicalSector, physicalSector).value;
    PowersListed(bs);
    PowersListed(inode);
  }

  /** Headers, roots, root chunk and its alignment all take few blocks. */
  lemma SmallPlaces(g: Geometry)
    requires Accepted(g.blocksize, g.sectsize, g.inodesize)
    ensures 1 <= g.HeaderBlocks() <= 4 && 4 <= g.PreallocBlocks() <= 10
    ensures 2 <= g.ChunkBlocks() <= 32 && g.InoAlignmt() <= 32
  {
    Positions(g);
    Headers(g.blocksize, g.sectsize);
    ChunkOf(g.blocksize, g.inodesize);
  }

  lemma Headers(bs: pos, sect: nat)
    requires 512 <= sect <= bs
    ensures 1 <= CeilDiv(4 * sect, bs) <= 4
  {
    CoverIsTight(4 * sect, bs);
    var n := CeilDiv(4 * sect, bs);
    assert (n - 1) * bs == (n - 4) * bs + 3 * bs;
    if n >= 5 {
      MulAtLeast(n - 4, bs);
    }
  }

  lemma ChunkOf(bs: pos, inode: nat)
    requires Supported(bs) && inode in {512, 1024, 2048} && 2 * inode <= bs
    ensures 2 <= INODES_PER_CHUNK * inode / bs <= 32
    ensures INODE_BIG_CLUSTER_SIZE * (inode / DINODE_MIN_SIZE) / bs <= 16
  {
    if inode == 512 {
    } else if inode == 1024 {
    }
  }

  /** The ratio is of blocks, whichever way it is rounded. */
  lemma RatioIs(d: nat, bs: pos)
    requires Supported(bs)
    ensures Blocks(d * bs / 2048, bs) == d / 2048
  {
    var q, r := d / 2048, d % 2048;
    var x := d * bs / 2048;
    assert d * bs == 2048 * (q * bs) + r * bs;
    assert r * bs < 2048 * bs;
    assert q * bs <= x < q * bs + bs;
    DivModUnique(x, bs, q, x - q * bs);
  }

  /** Sizes the log is limited by, in blocks. */
  lemma LogSizes(bs: pos)
    requires Supported(bs)
    ensures Blocks(64 * MIB, bs) == 4 * AgMin(bs) && 1024 <= AgMin(bs) <= 0x4000
    ensures Blocks(64 * MIB, bs) <= Blocks(MAX_LOG_BYTES, bs) && Blocks(MAX_LOG_BYTES, bs) * bs == MAX_LOG_BYTES
    ensures 8 * Blocks(300 * MIB, bs) == 150 * AgMin(bs)
    ensures AgMax(bs) < 0x4000_0000
    ensures 64 * MIB == Blocks(64 * MIB, bs) * bs
  {
    if bs == 1024 {
    } else if bs == 2048 {
    } else if bs == 4096 {
    } else if bs == 8192 {
    }
  }

  lemma MoreThan(n: int, bs: pos, max: nat, bytes: nat)
    requires max * bs == bytes
    ensures n * bs > bytes <==> n > max
  {
    assert n * bs - bytes == (n - max) * bs;
    if n > max {
      MulAtLeast(n - max, bs);
    } else if n < max {
      MulAtLeast(max - n, bs);
    }
  }

  /** The log's size before the groups are counted, as one minimum. */
  lemma LogBlocksIs(g: Geometry)
    requires Accepted(g.blocksize, g.sectsize, g.inodesize)
    ensures var want := Max(g.dblocks / 2048, Blocks(64 * MIB, g.blocksize));
            LogBlocks(g) == Min(Min(want, g.AgMaxUsable() - 1), Min(MAX_LOG_BLOCKS, Blocks(MAX_LOG_BYTES, g.blocksize)))
  {
    var bs := g.blocksize;
    RatioIs(g.dblocks, bs);
    LogSizes(bs);
    var capped := Min(Min(Max(g.dblocks / 2048, Blocks(64 * MIB, bs)), g.AgMaxUsable() - 1), MAX_LOG_BLOCKS);
    MoreThan(capped, bs, Blocks(MAX_LOG_BYTES, bs), MAX_LOG_BYTES);
    hide Blocks;
  }

  /** A computed geometry's sizes, and where its log went. */
  predicate Shaped(g: Geometry) {
    && Accepted(g.blocksize, g.sectsize, g.inodesize)
    && AgMin(g.blocksize) <= g.agsize <= AgMax(g.blocksize)
    && g.agsize <= g.dblocks && 2 <= g.agcount <= MAX_AGNUMBER
    && g.agblklog == LogFrom(g.agsize, 0)
    && g.logagno == g.agcount / 2 && g.logAgbno == g.PreallocBlocks()
    && Blocks(64 * MIB, g.blocksize) <= g.logblocks
    && g.logblocks == LogBlocks(g)
  }

  /** The error branch after the log is sized is never taken. */
  lemma LogHasPlace(g: Geometry)
    requires Accepted(g.blocksize, g.sectsize, g.inodesize) && AgMin(g.blocksize) <= g.agsize
    ensures 0 <= LogBlocks(g) <= g.agsize - g.PreallocBlocks() - 5
    ensures 0 <= LogBlocksIn(g, g.agcount / 2)
  {
    LogSizes(g.blocksize);
    SmallPlaces(g);
    Positions(g);
    LogBlocksIs(g);
    hide AgMin, Blocks, LogBlocks;
  }

  lemma LogBlocksKept(g: Geometry, logblocks: nat)
    ensures LogBlocks(WithLog(g, logblocks)) == LogBlocks(g)
  {
    assert WithLog(g, logblocks).AgMaxUsable() == g.AgMaxUsable();
  }

  /** Nor is room made for group 0's root chunk: a geometry with the log there is refused. */
  lemma SizedShapes(g: Geometry)
    requires Accepted(g.blocksize, g.sectsize, g.inodesize)
    requires AgMin(g.blocksize) <= g.agsize <= AgMax(g.blocksize) && g.agsize <= g.dblocks
    requires g.agblklog == LogFrom(g.agsize, 0) && g.agcount <= MAX_AGNUMBER
    requires Sized(g).Ok?
    ensures Sized(g).value == WithLog(g, LogBlocks(g)) && Shaped(Sized(g).value)
  {
    LogHasPlace(g);
    hide AgMin, AgMax, Blocks, LogFrom, LogBlocks;
    assert g.agcount / 2 > 0;
    LogBlocksKept(g, LogBlocks(g));
  }

  /** The log's size and place, the size narrowed limit by limit. */
  method CalculateLogSize(g: Geometry) returns (r: Result<Geometry>)
    requires Accepted(g.blocksize, g.sectsize, g.inodesize) && AgMin(g.blocksize) <= g.agsize
    ensures r.Err? ==> Sized(g) == r
    ensures r.Ok? ==> Sized(g) == if Usable(r.value) then r else Err(InvalidParams)
  {
    var bs := g.blocksize;
    if g.dblocks < Blocks(300 * MIB, bs) {
      return Err(Unsupported);
    }
    LogHasPlace(g);
    var maxLogblocks := g.AgMaxUsable() - 1;
    var logblocks := Blocks(g.dblocks * bs / 2048, bs);
    hide Blocks, AgMin, Accepted;
    logblocks := Max(logblocks, Blocks(64 * MIB, bs));
    logblocks := Min(logblocks, maxLogblocks);
    logblocks := Min(logblocks, MAX_LOG_BLOCKS);
    if logblocks * bs > MAX_LOG_BYTES {
      logblocks := Blocks(MAX_LOG_BYTES, bs);
    }
    assert logblocks == LogBlocks(g);
    if logblocks > g.agsize - g.PreallocBlocks() {
      return Err(InvalidParams);
    }
    if g.agcount / 2 == 0 {
      logblocks := Min(logblocks, maxLogblocks - g.ChunkBlocks() * 4);
    }
    r := Ok(WithLog(g, logblocks));
  }

  lemma DataBlocksAre(bs: pos, size: Option<nat>, deviceSize: nat)
    requires Supported(bs) && DataBlocks(bs, size, deviceSize).Ok?
    ensures DataBlocks(bs, size, deviceSize).value > 0
  {
    LogSizes(bs);
  }

  lemma DataBlocksKept(p: Params, deviceSize: nat, bs: pos, d0: nat, s: pos, n: pos, d: nat)
    requires DataBlocks(bs, p.size, deviceSize) == Ok(d0) && Supported(bs)
    requires Trimmed(bs, d0, s, n, p.agcount.Some?).Ok? && Trimmed(bs, d0, s, n, p.agcount.Some?).value.0 == d
    ensures var asked := if p.size.Some? then p.size.value else deviceSize;
            && asked / bs <= deviceSize / bs && d <= asked / bs < d + 0x100_0000 / bs
            && (p.agcount.Some? ==> d == asked / bs)
  {
    LogSizes(bs);
    hide AgMax;
  }

  /** The geometry for the parameters, on a device of this size and sectors. */
  method Compute(p: Params, deviceSize: nat, logicalSector: nat, physicalSector: nat) returns (r: Result<Geometry>)
    ensures r == Computed(p, deviceSize, logicalSector, physicalSector)
    // The size asked for, or the device's, but for a last group too small to be one.
    ensures r.Ok? ==>
              var g, asked := r.value, if p.size.Some? then p.size.value else deviceSize;
              && asked / g.blocksize <= deviceSize / g.blocksize
              && g.dblocks <= asked / g.blocksize < g.dblocks + 0x100_0000 / g.blocksize
              && (p.agcount.Some? ==> g.dblocks == asked / g.blocksize)
  {
    hide AskedAgs, Trimmed, LogBlocks, LogBlocksIn, AgMax, LogFrom, Sizes, DataBlocks;
    var sizes :- Sizes(p, logicalSector, physicalSector);
    SizesAreAccepted(p, logicalSector, physicalSector);
    var d0 :- DataBlocks(sizes.0, p.size, deviceSize);
    LogSizes(sizes.0);
    DataBlocksAre(sizes.0, p.size, deviceSize);
    var asked :- ChooseAgs(sizes.0, d0, p.agsize, p.agcount);
    var ags :- TrimAgs(sizes.0, d0, asked.0, asked.1, p.agcount.Some?);
    TrimmedIs(sizes.0, d0, asked.0, asked.1, p.agcount.Some?);
    if p.imaxpct.Some? && p.imaxpct.value > 100 {
      return Err(InvalidParams);
    }
    if p.volume.Some? && |p.volume.value| > 12 {
      return Err(InvalidParams);
    }
    var agblklog := Log2Roundup(ags.1);
    var g := Geometry(sizes.0, sizes.1, sizes.2, ags.0, ags.1, ags.2, agblklog, 0, 0, 0, p.features);
    var sized :- CalculateLogSize(g);
    if sized.dblocks < Blocks(300 * MIB, sized.blocksize) {
      return Err(InvalidParams);
    }
    if sized.logblocks < Blocks(64 * MIB, sized.blocksize) {
      return Err(InvalidParams);
    }
    if sized.agcount < 2 {
      return Err(InvalidParams);
    }
    DataBlocksKept(p, deviceSize, sizes.0, d0, asked.0, asked.1, ags.0);
    r := Ok(sized);
  }

  // ---------------------------------------------------------------------------------------
  // The geometry computed.

  /** The stages of a computation that succeeded. */
  lemma ComputedStages(p: Params, deviceSize: nat, logicalSector: nat, physicalSector: nat)
      returns (sizes: (nat, nat, nat), d0: nat, asked: (int, int), ags: (nat, pos, pos))
    requires Computed(p, deviceSize, logicalSector, physicalSector).Ok?
    ensures Sizes(p, logicalSector, physicalSector) == Ok(sizes) && sizes.0 > 0 && sizes.1 > 0 && sizes.2 > 0
    ensures DataBlocks(sizes.0, p.size, deviceSize) == Ok(d0)
    ensures AskedAgs(sizes.0, d0, p.agsize, p.agcount) == Ok(asked) && asked.0 > 0 && asked.1 > 0
    ensures Trimmed(sizes.0, d0, asked.0, asked.1, p.agcount.Some?) == Ok(ags)
    ensures Computed(p, deviceSize, logicalSector, physicalSector) == Sized(WithoutLog(sizes, ags, p.features))
  {
    sizes := Sizes(p, logicalSector, physicalSector).value;
    d0 := DataBlocks(sizes.0, p.size, deviceSize).value;
    asked := AskedAgs(sizes.0, d0, p.agsize, p.agcount).value;
    ags := Trimmed(sizes.0, d0, asked.0, asked.1, p.agcount.Some?).value;
  }

  /** A count was given and no size. */
  predicate Counted(p: Params) {
    p.agsize.None? && p.agcount.Some?
  }

  /** The groups are laid out as they were asked for. */
  predicate AsAsked(p: Params, g: Geometry) {
    if Counted(p) then
      && g.agcount == p.agcount.value && g.agsize == CeilDiv(g.dblocks, g.agcount)
      && (g.dblocks % g.agsize == 0 || AgMin(g.blocksize) <= g.dblocks % g.agsize)
    else
      Covers(g.blocksize, g.dblocks, g.agsize, g.agcount)
  }

  /** Every geometry computed is shaped, within the device, and lays out its groups as they were asked for. */
  lemma ComputedShapes(p: Params, deviceSize: nat, logicalSector: nat, physicalSector: nat, g: Geometry)
    requires Computed(p, deviceSize, logicalSector, physicalSector) == Ok(g)
    ensures Shaped(g) && AsAsked(p, g) && g.features == p.features && g.dblocks <= Blocks(deviceSize, g.blocksize)
  {
    var sizes, d0, asked, ags := ComputedStages(p, deviceSize, logicalSector, physicalSector);
    SizesAreAccepted(p, logicalSector, physicalSector);
    var bs := sizes.0;
    assert Supported(bs);
    TrimmedIs(bs, d0, asked.0, asked.1, p.agcount.Some?);
    if !Counted(p) {
      AskedCount(bs, d0, p.agsize, p.agcount);
      TrimmedCovers(bs, d0, asked.0, asked.1, p.agcount.Some?);
    }
    hide AgMin, AgMax, Blocks, LogFrom, Supported, CeilDiv, Sized, Shaped, Covers, Sizes;
    SizedShapes(WithoutLog(sizes, ags, p.features));
  }

  lemma AskedCount(bs: pos, d0: nat, agsize: Option<nat>, agcount: Option<nat>)
    requires AskedAgs(bs, d0, agsize, agcount).Ok? && (agsize.Some? || agcount.None?)
    requires AskedAgs(bs, d0, agsize, agcount).value.0 > 0
    ensures AskedAgs(bs, d0, agsize, agcount).value.1 == CeilDiv(d0, AskedAgs(bs, d0, agsize, agcount).value.0)
  {
  }

  lemma TrimmedIs(bs: pos, d0: nat, s: pos, n: pos, counted: bool)
    requires Trimmed(bs, d0, s, n, counted).Ok?
    ensures var (d, s', c) := Trimmed(bs, d0, s, n, counted).value;
            && s' == s && AgMin(bs) <= s <= AgMax(bs) && s <= d <= d0 && c <= MAX_AGNUMBER
            && (counted ==> d == d0 && c == n && (d % s == 0 || AgMin(bs) <= d % s))
  {
  }

  /** Every group is big enough to be one, and no bigger than the rest. */
  lemma GroupSizes(g: Geometry, agno: nat)
    requires Covers(g.blocksize, g.dblocks, g.agsize, g.agcount) && agno < g.agcount
    requires AgMin(g.blocksize) <= g.agsize
    ensures AgMin(g.blocksize) <= g.AgBlocks(agno) <= g.agsize
  {
    assert g.agcount * g.agsize == (g.agcount - 1) * g.agsize + g.agsize;
  }

  lemma LastOfTiled(d: nat, s: pos, n: pos)
    requires (n - 1) * s < d <= n * s
    ensures d - (n - 1) * s == if d % s == 0 then s else d % s
  {
    var r := d - (n - 1) * s;
    assert n * s == (n - 1) * s + s;
    if r == s {
      DivModUnique(d, s, n, 0);
    } else {
      DivModUnique(d, s, n - 1, r);
    }
  }

  lemma TiledCovers(p: Params, g: Geometry)
    requires AsAsked(p, g) && AgMin(g.blocksize) <= g.agsize
    requires (g.agcount - 1) * g.agsize < g.dblocks <= g.agcount * g.agsize
    ensures Covers(g.blocksize, g.dblocks, g.agsize, g.agcount)
  {
    LastOfTiled(g.dblocks, g.agsize, g.agcount);
  }

  /** Whole groups, bar fewer blocks than one: when a given count of groups tiles. */
  predicate CountFits(d: nat, n: pos) {
    d % n == 0 || n - d % n <= d / n
  }

  /**
   Default groups and groups of a given size always tile the data blocks; a given count of them
   does exactly when what it is short of whole groups is less than one group.
   */
  lemma TilesIff(p: Params, g: Geometry)
    requires Shaped(g) && AsAsked(p, g)
    ensures Tiled(g) <==> Counted(p) ==> CountFits(g.dblocks, g.agcount)
  {
    hide AgMin, AgMax, Blocks, LogFrom, Supported, LogBlocks, Accepted;
    if Counted(p) {
      CountTiles(g.dblocks, g.agcount);
    }
  }

  /**
   And wherever they tile, no group is shorter than the smallest allowed or longer than the first,
   nor that than the largest allowed.
   */
  lemma ComputedTiles(p: Params, deviceSize: nat, logicalSector: nat, physicalSector: nat, g: Geometry)
    requires Computed(p, deviceSize, logicalSector, physicalSector) == Ok(g)
    ensures Tiled(g) <==> Counted(p) ==> CountFits(g.dblocks, g.agcount)
    ensures g.agsize <= AgMax(g.blocksize)
    ensures Tiled(g) ==> forall a :: 0 <= a < g.agcount ==> AgMin(g.blocksize) <= g.AgBlocks(a) <= g.agsize
  {
    hide Computed, AsAsked, CountFits;
    ComputedShapes(p, deviceSize, logicalSector, physicalSector, g);
    TilesIff(p, g);
    if Tiled(g) {
      TiledCovers(p, g);
      forall a | 0 <= a < g.agcount
        ensures AgMin(g.blocksize) <= g.AgBlocks(a) <= g.agsize
      {
        GroupSizes(g, a);
      }
    }
  }

  /** No more groups than the smallest allowed has blocks always tile. */
  lemma FewGroupsTile(p: Params, deviceSize: nat, logicalSector: nat, physicalSector: nat, g: Geometry)
    requires Computed(p, deviceSize, logicalSector, physicalSector) == Ok(g)
    requires Counted(p) && p.agcount.value <= AgMin(g.blocksize)
    ensures Tiled(g)
  {
    ComputedShapes(p, deviceSize, logicalSector, physicalSector, g);
    hide Computed, LogBlocks, LogFrom, Accepted, Blocks;
    CoverIsTight(g.dblocks, g.agcount);
    TilesIff(p, g);
  }

  lemma {:induction false} TwoToThe(k: nat)
    ensures PowerOfTwo(Pow2(k))
  {
    if k > 0 {
      TwoToThe(k - 1);
    }
  }
}
