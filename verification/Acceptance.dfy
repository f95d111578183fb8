/**
 Which parameters are accepted, and what for: the outcome of the computation by the numbers alone, without
 the stages it goes through.
 */
module Acceptance {
  import opened Prelude
  import opened Geometry
  import opened AgGeometry
  import opened AgPlan
  import opened Compute

  // ---------------------------------------------------------------------------------------
  // What is asked for.

  function BlockSize(p: Params): nat {
    if p.blockSize.Some? then p.blockSize.value else 4096
  }

  function InodeSize(p: Params): nat {
    if p.inodeSize.Some? then p.inodeSize.value else 512
  }

  /** The physical sector where it is larger than the logical and a block can hold it. */
  function SectorSize(p: Params, logical: nat, physical: nat): nat {
    var least := if logical < 512 then 512 else logical;
    if p.sectorSize.Some? then p.sectorSize.value
    else if physical <= least || physical > 32768 || (BlockSize(p) < physical && least <= BlockSize(p)) then least
    else physical
  }

  function Bytes(p: Params, deviceSize: nat): nat {
    if p.size.Some? then p.size.value else deviceSize
  }

  /** A quarter of the data, of a small device a half or all of it, and no group of 1 TiB. */
  function DefaultGroup(bs: pos, d0: nat): int {
    var largest := 0x100_0000_0000 / bs - 1;
    var parts := if d0 >= 0x400_0000 / bs then 4 else if d0 >= 0x200_0000 / bs then 2 else 1;
    if d0 >= 0x400_0000_0000 / bs then largest else Min((d0 + parts - 1) / parts, largest)
  }

  /** The size and number of the groups before a short last one is dropped; none for a size of no blocks. */
  function Groups(p: Params, bs: pos, d0: nat): Option<(pos, nat)> {
    match p.agsize
    case Some(bytes) =>
      if bytes % bs != 0 || bytes / bs == 0 then None
      else Some((bytes / bs, (d0 + bytes / bs - 1) / (bytes / bs)))
    case None =>
      match p.agcount
      case Some(n) => if n == 0 || (d0 + n - 1) / n == 0 then None else Some(((d0 + n - 1) / n, n))
      case None =>
        var s := DefaultGroup(bs, d0);
        if s <= 0 then None else Some((s, (d0 + s - 1) / s))
  }

  // ---------------------------------------------------------------------------------------
  // What is accepted.

  predicate SizesAllowed(p: Params, logical: nat, physical: nat) {
    var bs, sect, inode := BlockSize(p), SectorSize(p, logical, physical), InodeSize(p);
    && (p.features.inobtcount ==> p.features.finobt)
    && bs in {1024, 2048, 4096, 8192, 16384}
    && sect in {512, 1024, 2048, 4096, 8192, 16384, 32768} && logical <= sect <= bs
    && inode in {512, 1024, 2048} && 2 * inode <= bs
  }

  /** Blocks of a last group too short to be one: less than 16 MiB. */
  function Short(bs: pos, d0: nat, s: pos): nat {
    if d0 % s < 0x100_0000 / bs then d0 % s else 0
  }

  predicate GroupsAllowed(p: Params, bs: pos, d0: nat) {
    Groups(p, bs, d0).Some? &&
    var (s, n) := Groups(p, bs, d0).value;
    var short := Short(bs, d0, s);
    var count := if short > 0 then n - 1 else n;
    && (short > 0 ==> p.agcount.None?)
    && 0x100_0000 / bs <= s <= (0x100_0000_0000 - 1) / bs
    && s <= d0 - short && 1 <= count <= 0xffff_fffe
  }

  predicate RestAllowed(p: Params) {
    && (p.imaxpct.Some? ==> p.imaxpct.value <= 100)
    && (p.volume.Some? ==> |p.volume.value| <= 12)
  }

  /** Blocks of headers and btree roots. */
  function Prealloc(bs: pos, sect: nat, f: Features): nat {
    (4 * sect + bs - 1) / bs + 3
    + (if f.finobt then 1 else 0) + (if f.rmapbt then 1 else 0) + if f.reflink then 1 else 0
  }

  /** The data blocks, and the log, that the groups leave. */
  predicate Roomy(p: Params, bs: pos, sect: nat, d: nat, s: nat, count: nat) {
    d >= 0x12c0_0000 / bs && s >= 0x400_0000 / bs + Prealloc(bs, sect, p.features) + 5 && count >= 2
  }

  lemma SmallPowers()
    ensures PowerOfTwo(512) && PowerOfTwo(1024) && PowerOfTwo(2048) && PowerOfTwo(4096) && PowerOfTwo(8192)
    ensures PowerOfTwo(16384) && PowerOfTwo(32768) && PowerOfTwo(65536)
  {
  }

  lemma PowersAre(n: nat)
    requires n <= 0x1_0000
    ensures PowerOfTwo(n) && n >= 512 <==> n in {512, 1024, 2048, 4096, 8192, 16384, 32768, 65536}
  {
    SmallPowers();
    hide PowerOfTwo;
    if PowerOfTwo(n) {
      PowersListed(n);
    }
  }

  lemma SectorIs(p: Params, logical: nat, physical: nat)
    ensures SectorSize(p, logical, physical) ==
            if p.sectorSize.Some? then p.sectorSize.value else DefaultSector(BlockSize(p), logical, physical)
  {
  }

  lemma SizesIff(p: Params, logical: nat, physical: nat)
    ensures Sizes(p, logical, physical).Ok? <==> SizesAllowed(p, logical, physical)
    ensures SizesAllowed(p, logical, physical) ==>
              Sizes(p, logical, physical).value == (BlockSize(p), SectorSize(p, logical, physical), InodeSize(p))
    ensures Sizes(p, logical, physical) == Err(Unsupported) <==>
            (p.features.inobtcount ==> p.features.finobt) && BlockSize(p) in {32768, 65536}
    ensures Sizes(p, logical, physical).Err? ==> Sizes(p, logical, physical).error in {Unsupported, InvalidParams}
  {
    SectorIs(p, logical, physical);
    hide PowerOfTwo, DefaultSector, SectorSize;
    var bs, sect, inode := BlockSize(p), SectorSize(p, logical, physical), InodeSize(p);
    if bs <= 0x1_0000 {
      PowersAre(bs);
    }
    if sect <= 0x1_0000 {
      PowersAre(sect);
    }
    if inode <= 0x1_0000 {
      PowersAre(inode);
    }
  }

  // ---------------------------------------------------------------------------------------
  // Stage by stage.

  lemma DataIff(bs: pos, p: Params, deviceSize: nat)
    ensures var d0 := Bytes(p, deviceSize) / bs;
            if d0 <= deviceSize / bs && d0 >= 0x100_0000 / bs then DataBlocks(bs, p.size, deviceSize) == Ok(d0)
            else DataBlocks(bs, p.size, deviceSize) == Err(InvalidParams)
  {
  }

  lemma DefaultIs(bs: pos, d0: nat)
    requires Supported(bs) && d0 >= 0x100_0000 / bs
    ensures DefaultAgSize(bs, d0, false) == DefaultGroup(bs, d0)
  {
    SizesInBlocks(bs);
    Powers();
    hide Pow2;
  }

  /** The groups of a disk array, which nothing here asks for: up to 32 of them. */
  lemma MultidiskIs(bs: pos, d0: nat)
    requires Supported(bs)
    ensures var largest := 0x100_0000_0000 / bs - 1;
            var parts :=
              if d0 > 0x80_0000_0000 / bs then 32
              else if d0 > 0x2_0000_0000 / bs then 16
              else if d0 >= 0x800_0000 / bs then 8
              else if d0 >= 0x400_0000 / bs then 4
              else if d0 >= 0x200_0000 / bs then 2
              else 1;
            DefaultAgSize(bs, d0, true) ==
            if d0 >= 0x2000_0000_0000 / bs then largest else Min((d0 + parts - 1) / parts, largest)
  {
    SizesInBlocks(bs);
    Powers();
    hide Pow2;
  }

  lemma DefaultGroups(p: Params, bs: pos, d0: nat)
    requires p.agsize.None? && p.agcount.None? && Supported(bs) && d0 >= 0x100_0000 / bs
    ensures var asked, s := AskedAgs(bs, d0, p.agsize, p.agcount), DefaultAgSize(bs, d0, false);
            && (asked.Ok? <==> s > 0) && (asked.Err? ==> asked.error == InvalidParams && Groups(p, bs, d0).None?)
            && (s > 0 ==> asked.value == (s, CeilDiv(d0, s)) && Groups(p, bs, d0) == Some((s, CeilDiv(d0, s))))
  {
    DefaultIs(bs, d0);
    hide DefaultAgSize, Supported, DefaultGroup;
  }

  lemma GroupsIff(p: Params, bs: pos, d0: nat)
    requires Supported(bs) && d0 >= 0x100_0000 / bs && d0 > 0
    ensures var asked := AskedAgs(bs, d0, p.agsize, p.agcount);
            if asked.Ok? && asked.value.0 > 0 && asked.value.1 > 0 then Groups(p, bs, d0) == Some(asked.value)
            else Groups(p, bs, d0).None? || Groups(p, bs, d0).value.1 == 0
    ensures AskedAgs(bs, d0, p.agsize, p.agcount).Err? ==>
              AskedAgs(bs, d0, p.agsize, p.agcount) == Err(InvalidParams)
  {
    if p.agsize.None? && p.agcount.None? {
      DefaultGroups(p, bs, d0);
      hide AskedAgs, Groups, DefaultAgSize, Supported, CeilDiv;
    } else {
      hide DefaultAgSize, Supported;
    }
  }

  lemma TrimIff(bs: pos, d0: nat, s: pos, n: pos, counted: bool)
    ensures var short := Short(bs, d0, s);
            var count := if short > 0 then n - 1 else n;
            if (short > 0 ==> !counted) && 0x100_0000 / bs <= s <= (0x100_0000_0000 - 1) / bs
               && s <= d0 - short && 1 <= count <= 0xffff_fffe
            then Trimmed(bs, d0, s, n, counted) == Ok((d0 - short, s, count))
            else Trimmed(bs, d0, s, n, counted) == Err(InvalidParams)
  {
  }

  /** A log of a 2048th of the data, and at least 64 MiB, within its group and the format's limits. */
  function LogSize(bs: pos, sect: nat, f: Features, d: nat, s: nat): int {
    Min(Min(Max(d / 2048, 0x400_0000 / bs), s - Prealloc(bs, sect, f) - 5), Min(0x10_0000, 0x7f60_0000 / bs))
  }

  lemma LogSizeIs(g: Geometry)
    requires Accepted(g.blocksize, g.sectsize, g.inodesize)
    ensures g.PreallocBlocks() == Prealloc(g.blocksize, g.sectsize, g.features)
    ensures LogBlocks(g) == LogSize(g.blocksize, g.sectsize, g.features, g.dblocks, g.agsize)
  {
    Positions(g);
    LogBlocksIs(g);
    assert MAX_LOG_BYTES == 0x7f60_0000 && 64 * MIB == 0x400_0000;
    hide LogBlocks, Accepted, AgMin;
  }

  lemma SizedIff(g: Geometry)
    requires Accepted(g.blocksize, g.sectsize, g.inodesize) && AgMin(g.blocksize) <= g.agsize
    ensures var bs := g.blocksize;
            var log := LogSize(bs, g.sectsize, g.features, g.dblocks, g.agsize);
            if g.dblocks < 0x12c0_0000 / bs then Sized(g) == Err(Unsupported)
            else if log >= 0x400_0000 / bs && g.agcount >= 2 then Sized(g) == Ok(WithLog(g, log))
            else Sized(g) == Err(InvalidParams)
  {
    LogSizeIs(g);
    LogHasPlace(g);
    LogSizes(g.blocksize);
    assert 300 * MIB == 0x12c0_0000 && 64 * MIB == 0x400_0000;
    hide LogBlocks, Accepted, AgMin, LogSize, AgMax;
  }

  lemma LogIsLong(bs: pos, sect: nat, f: Features, d: nat, s: nat)
    requires Supported(bs)
    ensures LogSize(bs, sect, f, d, s) >= 0x400_0000 / bs <==> s >= 0x400_0000 / bs + Prealloc(bs, sect, f) + 5
  {
    hide Prealloc;
  }

  // ---------------------------------------------------------------------------------------
  // The whole computation.

  /** The parameters are in order, but for what is only known once the log is sized. */
  predicate InOrder(p: Params, deviceSize: nat, logical: nat, physical: nat) {
    && SizesAllowed(p, logical, physical) && RestAllowed(p) &&
    var bs := BlockSize(p);
    var d0 := Bytes(p, deviceSize) / bs;
    0x100_0000 / bs <= d0 <= deviceSize / bs && GroupsAllowed(p, bs, d0)
  }

  /** Data blocks, group size and group count. */
  function Laid(p: Params, deviceSize: nat, logical: nat, physical: nat): (nat, pos, nat)
    requires InOrder(p, deviceSize, logical, physical)
  {
    var bs := BlockSize(p);
    var d0 := Bytes(p, deviceSize) / bs;
    var (s, n) := Groups(p, bs, d0).value;
    var short := Short(bs, d0, s);
    (d0 - short, s, if short > 0 then n - 1 else n)
  }

  /**
   A geometry is computed exactly for parameters in order that leave at least 300 MiB, a log of at least
   64 MiB and two groups, and then this one; block sizes over 16 KiB and filesystems under 300 MiB are
   unsupported, and anything else is an invalid parameter.
   */
  lemma ComputedIff(p: Params, deviceSize: nat, logical: nat, physical: nat)
    ensures var r, bs := Computed(p, deviceSize, logical, physical), BlockSize(p);
            if InOrder(p, deviceSize, logical, physical) then
              var (d, s, count) := Laid(p, deviceSize, logical, physical);
              if d < 0x12c0_0000 / bs then r == Err(Unsupported)
              else if !Roomy(p, bs, SectorSize(p, logical, physical), d, s, count) then r == Err(InvalidParams)
              else r.Ok?
            else
              r == Err(if (p.features.inobtcount ==> p.features.finobt) && bs in {32768, 65536} then Unsupported
                       else InvalidParams)
  {
    var bs := BlockSize(p);
    SizesIff(p, logical, physical);
    hide Sizes, SizesAllowed, RestAllowed, GroupsAllowed, DataBlocks, AskedAgs, Trimmed, Sized, Groups, Roomy;
    hide SectorSize, Short, InodeSize;
    if SizesAllowed(p, logical, physical) {
      AllowedAre(p, logical, physical);
      var d0 := Bytes(p, deviceSize) / bs;
      DataIff(bs, p, deviceSize);
      if 0x100_0000 / bs <= d0 <= deviceSize / bs {
        FromGroups(p, deviceSize, logical, physical, bs, SectorSize(p, logical, physical), InodeSize(p), d0);
        if GroupsAllowed(p, bs, d0) && RestAllowed(p) {
          var (d, s, count) := Laid(p, deviceSize, logical, physical);
          FromLog(p, deviceSize, logical, physical, bs, SectorSize(p, logical, physical), InodeSize(p), d, s, count);
        }
      }
    }
  }

  lemma AllowedAre(p: Params, logical: nat, physical: nat)
    requires SizesAllowed(p, logical, physical)
    ensures Accepted(BlockSize(p), SectorSize(p, logical, physical), InodeSize(p))
    ensures BlockSize(p) !in {32768, 65536} && 0x100_0000 / BlockSize(p) >= 1024
  {
    hide SectorSize;
    LogSizes(BlockSize(p));
  }

  /** The computation from its stages' results. */
  lemma Unfolds(p: Params, deviceSize: nat, logical: nat, physical: nat, sizes: (nat, nat, nat), d0: nat)
    requires Sizes(p, logical, physical) == Ok(sizes) && sizes.0 > 0 && sizes.1 > 0 && sizes.2 > 0
    requires DataBlocks(sizes.0, p.size, deviceSize) == Ok(d0)
    ensures var asked := AskedAgs(sizes.0, d0, p.agsize, p.agcount);
            Computed(p, deviceSize, logical, physical) ==
            if asked.Err? then Err(asked.error)
            else if asked.value.0 <= 0 || asked.value.1 <= 0 then Err(InvalidParams)
            else
              var ags := Trimmed(sizes.0, d0, asked.value.0, asked.value.1, p.agcount.Some?);
              if ags.Err? then Err(ags.error)
              else if !RestAllowed(p) then Err(InvalidParams)
              else Sized(WithoutLog(sizes, ags.value, p.features))
  {
    hide Sizes, DataBlocks, AskedAgs, Trimmed, Sized;
  }

  /** The groups' stages, by the numbers. */
  lemma GroupsThenTrim(p: Params, bs: pos, d0: nat)
    requires Supported(bs) && d0 >= 0x100_0000 / bs && d0 > 0
    ensures var asked := AskedAgs(bs, d0, p.agsize, p.agcount);
            if asked.Err? then asked == Err(InvalidParams) && !GroupsAllowed(p, bs, d0)
            else if asked.value.0 <= 0 || asked.value.1 <= 0 then !GroupsAllowed(p, bs, d0)
            else
              var ags := Trimmed(bs, d0, asked.value.0, asked.value.1, p.agcount.Some?);
              if !GroupsAllowed(p, bs, d0) then ags == Err(InvalidParams)
              else
                var short := Short(bs, d0, asked.value.0);
                && Groups(p, bs, d0) == Some(asked.value)
                && ags == Ok((d0 - short, asked.value.0, if short > 0 then asked.value.1 - 1 else asked.value.1))
  {
    GroupsIff(p, bs, d0);
    hide AskedAgs, Trimmed, Groups, Short;
    var asked := AskedAgs(bs, d0, p.agsize, p.agcount);
    if asked.Ok? && asked.value.0 > 0 && asked.value.1 > 0 {
      TrimIff(bs, d0, asked.value.0, asked.value.1, p.agcount.Some?);
    }
  }

  /** Once the sizes and the data blocks are known. */
  lemma FromGroups(
      p: Params, deviceSize: nat, logical: nat, physical: nat, bs: pos, sect: pos, inode: pos, d0: nat)
    requires SizesAllowed(p, logical, physical) && bs == BlockSize(p) && sect == SectorSize(p, logical, physical)
    requires inode == InodeSize(p) && d0 == Bytes(p, deviceSize) / bs && 0x100_0000 / bs <= d0 <= deviceSize / bs
    ensures if GroupsAllowed(p, bs, d0) && RestAllowed(p) then
              var (d, s, count) := Laid(p, deviceSize, logical, physical);
              && count > 0
              && Computed(p, deviceSize, logical, physical) ==
                 Sized(WithoutLog((bs, sect, inode), (d, s, count), p.features))
            else Computed(p, deviceSize, logical, physical) == Err(InvalidParams)
  {
    hide Sizes, SizesAllowed, DataBlocks, AskedAgs, Trimmed, Sized, Groups, SectorSize, InodeSize, Short, WithoutLog;
    hide RestAllowed, Computed;
    SizesIff(p, logical, physical);
    AllowedAre(p, logical, physical);
    DataIff(bs, p, deviceSize);
    GroupsThenTrim(p, bs, d0);
    Unfolds(p, deviceSize, logical, physical, (bs, sect, inode), d0);
  }

  /** Once the groups are known too. */
  lemma FromLog(
      p: Params, deviceSize: nat, logical: nat, physical: nat, bs: pos, sect: pos, inode: pos,
      d: nat, s: pos, count: pos)
    requires InOrder(p, deviceSize, logical, physical) && bs == BlockSize(p) && inode == InodeSize(p)
    requires sect == SectorSize(p, logical, physical) && (d, s, count) == Laid(p, deviceSize, logical, physical)
    ensures var r := Computed(p, deviceSize, logical, physical);
            var log := LogSize(bs, sect, p.features, d, s);
            if d < 0x12c0_0000 / bs then r == Err(Unsupported)
            else if !Roomy(p, bs, sect, d, s, count) then r == Err(InvalidParams)
            else
              log >= 0 && r == Ok(Geometry(bs, sect, inode, d, s, count, LogFrom(s, 0), log, count / 2,
                                           Prealloc(bs, sect, p.features), p.features))
  {
    hide SizesAllowed, Groups, SectorSize, InodeSize, Short, LogFrom, LogSize, Prealloc, Sized, Computed, RestAllowed;
    AllowedAre(p, logical, physical);
    FromGroups(p, deviceSize, logical, physical, bs, sect, inode, Bytes(p, deviceSize) / bs);
    var g := WithoutLog((bs, sect, inode), (d, s, count), p.features);
    SizedIff(g);
    LogSizeIs(g);
    LogIsLong(bs, sect, p.features, d, s);
  }

  /**
   The geometry itself: the sizes asked for or their defaults, the groups asked for, and a log of a 2048th
   of the data between 64 MiB and what its group and the format allow, at the start of the middle group.
   */
  lemma ComputedIs(p: Params, deviceSize: nat, logical: nat, physical: nat, g: Geometry)
    requires Computed(p, deviceSize, logical, physical) == Ok(g)
    ensures InOrder(p, deviceSize, logical, physical)
    ensures g.blocksize == BlockSize(p) && g.sectsize == SectorSize(p, logical, physical)
    ensures g.inodesize == InodeSize(p) && g.features == p.features
    ensures (g.dblocks, g.agsize, g.agcount) == Laid(p, deviceSize, logical, physical)
    ensures g.agsize <= Pow2(g.agblklog) && (g.agblklog > 0 ==> Pow2(g.agblklog - 1) < g.agsize)
    ensures g.logblocks == LogSize(g.blocksize, g.sectsize, g.features, g.dblocks, g.agsize)
    ensures g.logagno == g.agcount / 2 && g.logAgbno == Prealloc(g.blocksize, g.sectsize, g.features)
  {
    ComputedIff(p, deviceSize, logical, physical);
    hide Computed, InOrder, Roomy, LogSize, Prealloc, SectorSize;
    var (d, s, count) := Laid(p, deviceSize, logical, physical);
    InOrderSizes(p, deviceSize, logical, physical);
    var sect := SectorSize(p, logical, physical);
    FromLog(p, deviceSize, logical, physical, BlockSize(p), sect, InodeSize(p), d, s, count);
  }

  lemma InOrderSizes(p: Params, deviceSize: nat, logical: nat, physical: nat)
    requires InOrder(p, deviceSize, logical, physical)
    ensures BlockSize(p) > 0 && SectorSize(p, logical, physical) > 0 && InodeSize(p) > 0
    ensures Laid(p, deviceSize, logical, physical).2 > 0
  {
    hide Groups, Short, SectorSize, RestAllowed;
  }

  /**
   The size asked for, or the device's, is kept: it is the data blocks, but for a last group under 16 MiB,
   which is never dropped when the groups were counted. A size over the device is refused.
   */
  lemma SizeIsKept(p: Params, deviceSize: nat, logical: nat, physical: nat)
    ensures var r := Computed(p, deviceSize, logical, physical);
            var asked := if p.size.Some? then p.size.value else deviceSize;
            r.Ok? ==>
              var g := r.value;
              && asked / g.blocksize <= deviceSize / g.blocksize
              && g.dblocks <= asked / g.blocksize < g.dblocks + 0x100_0000 / g.blocksize
              && (p.agcount.Some? ==> g.dblocks == asked / g.blocksize)
    ensures SizesAllowed(p, logical, physical) && p.size.Some?
            && p.size.value / BlockSize(p) > deviceSize / BlockSize(p)
            ==> Computed(p, deviceSize, logical, physical) == Err(InvalidParams)
  {
    ComputedIff(p, deviceSize, logical, physical);
    hide Computed, Roomy, Groups, SectorSize, RestAllowed, InodeSize;
    if Computed(p, deviceSize, logical, physical).Ok? {
      ComputedIs(p, deviceSize, logical, physical, Computed(p, deviceSize, logical, physical).value);
      assert 0x100_0000 / BlockSize(p) > 0;
    }
  }
}
