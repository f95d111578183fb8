/** From parameters to planned groups: when a computed geometry's groups can all be planned. */
module Planning {
  import opened Prelude
  import opened Geometry
  import opened AgGeometry
  import opened AgPlan
  import opened Compute

  /** A computed geometry whose groups tile. */
  predicate Ready(g: Geometry) {
    Shaped(g) && Covers(g.blocksize, g.dblocks, g.agsize, g.agcount)
  }

  /** After headers, roots and log, the log's group has what fills a free list. */
  predicate LogLeavesRoom(g: Geometry) {
    g.PreallocBlocks() + g.logblocks + g.MinFreelist() <= g.AgBlocks(g.logagno)
  }

  lemma ReadyIsLaidOut(g: Geometry, agno: nat)
    requires Ready(g) && agno < g.agcount
    ensures Tiled(g) && LaidOut(g, agno) && g.ChunkBlocks() > 0
    ensures 1024 <= AgMin(g.blocksize) <= g.AgBlocks(agno)
  {
    LogSizes(g.blocksize);
    GroupSizes(g, agno);
    SmallPlaces(g);
    hide AgMin, AgMax, Blocks, LogBlocks, LogFrom, Accepted;
  }

  /** The aligned root chunk is within the smallest group. */
  lemma RootChunkIsLow(g: Geometry)
    requires Shaped(g)
    ensures g.RootChunkAgbno() + g.ChunkBlocks() <= 128
  {
    SmallPlaces(g);
    Positions(g);
    hide AgMin, AgMax, Blocks, LogBlocks, LogFrom, Accepted;
    var first := g.PreallocBlocks() + g.MinFreelist();
    assert g.logagno > 0;
    if g.InoAlignmt() > 1 {
      RoundUpBounds(first, g.InoAlignmt());
    }
  }

  lemma LeastMultiple(n: nat, m: pos, b: nat)
    requires n <= b && b % m == 0
    ensures RoundUp(n, m) <= b
  {
    CoverIsTight(n, m);
    var k, q := CeilDiv(n, m), b / m;
    assert b == q * m && (k - 1) * m < n;
    MulOrder(k - 1, q, m);
    MulOrder(q, k, m);
  }

  /**
   The root chunk goes to the least aligned block past the headers, roots, first free list and, in
   its own group, the log.
   */
  lemma RootChunkIsLeast(g: Geometry, b: nat)
    requires g.InoAlignmt() > 0
    ensures var past := g.PreallocBlocks() + g.MinFreelist() + if g.logagno == 0 then g.logblocks else 0;
            && past <= g.RootChunkAgbno() && g.RootChunkAgbno() % g.InoAlignmt() == 0
            && (past <= b && b % g.InoAlignmt() == 0 ==> g.RootChunkAgbno() <= b)
  {
    Positions(g);
    var past := g.PreallocBlocks() + g.MinFreelist() + if g.logagno == 0 then g.logblocks else 0;
    hide RoundUp;
    if g.InoAlignmt() > 1 {
      RoundUpBounds(past, g.InoAlignmt());
      if past <= b && b % g.InoAlignmt() == 0 {
        LeastMultiple(past, g.InoAlignmt(), b);
      }
    }
  }

  /** Only the log's group can be too full to plan. */
  lemma OthersFit(g: Geometry, agno: nat)
    requires Ready(g) && agno < g.agcount
    ensures PlanFits(g, agno) <==> agno == g.logagno ==> LogLeavesRoom(g)
  {
    ReadyIsLaidOut(g, agno);
    RootChunkIsLow(g);
    SmallPlaces(g);
    InitialFreeIs(g, agno, 0);
    NoTotal();
    hide AgMin, AgMax, Blocks, LogBlocks, LogFrom, Accepted, Covers, Total;
  }

  lemma EveryPlanFits(g: Geometry)
    requires Ready(g)
    ensures forall a :: 0 <= a < g.agcount ==> LaidOut(g, a)
    ensures (forall a :: 0 <= a < g.agcount ==> PlanFits(g, a)) <==> LogLeavesRoom(g)
  {
    hide PlanFits, LaidOut, LogLeavesRoom;
    forall a | 0 <= a < g.agcount
      ensures LaidOut(g, a) && (PlanFits(g, a) <==> a == g.logagno ==> LogLeavesRoom(g))
    {
      ReadyIsLaidOut(g, a);
      OthersFit(g, a);
    }
    hide AgMin, AgMax, Blocks, LogBlocks, LogFrom, Accepted, Covers;
    assert 0 <= g.logagno < g.agcount;
    if LogLeavesRoom(g) {
      assert forall a :: 0 <= a < g.agcount ==> PlanFits(g, a);
    } else {
      assert !PlanFits(g, g.logagno);
    }
  }

  lemma ComputedReady(p: Params, deviceSize: nat, logicalSector: nat, physicalSector: nat, g: Geometry)
    requires Computed(p, deviceSize, logicalSector, physicalSector) == Ok(g)
    requires Counted(p) ==> CountFits(g.dblocks, g.agcount)
    ensures Ready(g) && Tiled(g)
  {
    hide Computed, AsAsked;
    ComputedShapes(p, deviceSize, logicalSector, physicalSector, g);
    TilesIff(p, g);
    TiledCovers(p, g);
  }

  /**
   The groups of a computed geometry that tiles can all be planned exactly when the log leaves room
   in its own.
   */
  lemma PlansFitIff(p: Params, deviceSize: nat, logicalSector: nat, physicalSector: nat, g: Geometry)
    requires Computed(p, deviceSize, logicalSector, physicalSector) == Ok(g)
    requires Counted(p) ==> CountFits(g.dblocks, g.agcount)
    ensures forall a :: 0 <= a < g.agcount ==> LaidOut(g, a)
    ensures (forall a :: 0 <= a < g.agcount ==> PlanFits(g, a)) <==> LogLeavesRoom(g)
  {
    hide Computed, Ready, LogLeavesRoom, PlanFits, LaidOut, Tiled;
    ComputedReady(p, deviceSize, logicalSector, physicalSector, g);
    EveryPlanFits(g);
  }

  /** When the log is not in the last group, it can only leave too little room with the reverse map on. */
  lemma RoomWithoutRmap(g: Geometry)
    requires Shaped(g) && g.logagno < g.agcount - 1
    ensures g.PreallocBlocks() + g.logblocks + 5 <= g.AgBlocks(g.logagno)
    ensures LogLeavesRoom(g) <==> !g.features.rmapbt || g.PreallocBlocks() + g.logblocks + 5 < g.agsize
  {
    LogHasPlace(g);
    hide AgMin, AgMax, Blocks, LogBlocks, LogFrom, Accepted;
  }

  // ---------------------------------------------------------------------------------------
  // Default groups.

  /** A quarter each, or groups of the maximal size and at least four of those. */
  lemma DefaultIsQuarter(bs: pos, d: nat)
    requires Supported(bs) && d >= Blocks(300 * MIB, bs)
    ensures var s := DefaultAgSize(bs, d, false);
            (s == AgMax(bs) && d >= 4 * s) || 4 * s - 4 < d <= 4 * s
  {
    SizesInBlocks(bs);
    LogSizes(bs);
    Powers();
    hide Blocks;
    if d < Blocks(4 * TIB, bs) {
      assert AgLog(bs, d, false) == Some(2);
      CoverIsTight(d, 4);
    }
  }

  /** What default groups are asked for of a device, before a short last one is dropped. */
  predicate Quarters(g: Geometry, d0: nat) {
    && g.dblocks <= d0 < g.dblocks + AgMin(g.blocksize)
    && ((g.agsize == AgMax(g.blocksize) && d0 >= 4 * g.agsize) || 4 * g.agsize - 4 < d0 <= 4 * g.agsize)
  }

  lemma SizedKeeps(g0: Geometry, g: Geometry)
    requires Sized(g0) == Ok(g)
    ensures g.blocksize == g0.blocksize && g.dblocks == g0.dblocks && g.agsize == g0.agsize
    ensures g.dblocks >= Blocks(300 * MIB, g.blocksize)
  {
  }

  /** A default size survives trimming, and little is trimmed. */
  lemma TrimmedQuarters(bs: pos, d0: nat, s: pos, n: pos)
    requires Supported(bs) && Trimmed(bs, d0, s, n, false).Ok? && s == DefaultAgSize(bs, d0, false)
    requires Trimmed(bs, d0, s, n, false).value.0 >= Blocks(300 * MIB, bs)
    ensures var d := Trimmed(bs, d0, s, n, false).value.0;
            && d <= d0 < d + AgMin(bs)
            && ((s == AgMax(bs) && d0 >= 4 * s) || 4 * s - 4 < d0 <= 4 * s)
  {
    LogSizes(bs);
    hide AgMin, AgMax, Blocks, Supported, DefaultAgSize;
    assert Trimmed(bs, d0, s, n, false).value.0 <= d0;
    DefaultIsQuarter(bs, d0);
  }

  lemma DefaultsAreQuarters(p: Params, deviceSize: nat, logicalSector: nat, physicalSector: nat, g: Geometry)
      returns (d0: nat)
    requires Computed(p, deviceSize, logicalSector, physicalSector) == Ok(g)
    requires p.agsize.None? && p.agcount.None?
    ensures Quarters(g, d0) && g.dblocks >= Blocks(300 * MIB, g.blocksize)
  {
    var sizes, d, asked, ags := ComputedStages(p, deviceSize, logicalSector, physicalSector);
    d0 := d;
    SizesAreAccepted(p, logicalSector, physicalSector);
    TrimmedIs(sizes.0, d0, asked.0, asked.1, false);
    hide Sizes, Computed, Supported, AgMin, AgMax, Blocks, DefaultAgSize, Sized, Trimmed, CeilDiv, LogFrom;
    SizedKeeps(WithoutLog(sizes, ags, p.features), g);
    TrimmedQuarters(sizes.0, d0, asked.0, asked.1);
  }

  lemma ByQuarters(min: nat, max: nat, d: nat, d0: nat, s: pos, n: pos, log: nat)
    requires min >= 1024 && max >= 0x3ff_ffff && 8 * d >= 150 * min
    requires (n - 1) * s < d <= n * s && d <= d0 < d + min
    requires (s == max && d0 >= 4 * s) || 4 * s - 4 < d0 <= 4 * s
    requires log <= MAX_LOG_BLOCKS && log <= Max(d / 2048, 4 * min)
    ensures n >= 4 && log + 16 <= s
  {
    assert n <= 3 ==> n * s <= 3 * s;
  }

  lemma LogAtMost(g: Geometry)
    requires Accepted(g.blocksize, g.sectsize, g.inodesize)
    ensures LogBlocks(g) <= MAX_LOG_BLOCKS
    ensures LogBlocks(g) <= Max(g.dblocks / 2048, 4 * AgMin(g.blocksize))
  {
    LogBlocksIs(g);
    LogSizes(g.blocksize);
    hide AgMin, Blocks, LogBlocks, Accepted;
  }

  /** Default groups are four or more, so the log's is not the last, and it always has room. */
  lemma QuartersLeaveRoom(g: Geometry, d0: nat)
    requires Ready(g) && Quarters(g, d0) && g.dblocks >= Blocks(300 * MIB, g.blocksize)
    ensures g.agcount >= 4 && g.logagno < g.agcount - 1 && LogLeavesRoom(g)
  {
    var bs := g.blocksize;
    LogSizes(bs);
    SizesInBlocks(bs);
    LogAtMost(g);
    hide AgMin, Blocks, AgMax, LogBlocks, LogFrom, Accepted, LogLeavesRoom;
    ByQuarters(AgMin(bs), AgMax(bs), g.dblocks, d0, g.agsize, g.agcount, g.logblocks);
    assert LogLeavesRoom(g) by {
      SmallPlaces(g);
    }
  }

  /** With default groups, every group of every geometry computed can be planned. */
  lemma DefaultsPlan(p: Params, deviceSize: nat, logicalSector: nat, physicalSector: nat, g: Geometry)
    requires Computed(p, deviceSize, logicalSector, physicalSector) == Ok(g)
    requires p.agsize.None? && p.agcount.None?
    ensures g.agcount >= 4 && g.logagno < g.agcount - 1
    ensures forall a :: 0 <= a < g.agcount ==> LaidOut(g, a) && PlanFits(g, a)
  {
    hide Computed, Ready, Quarters, LogLeavesRoom, PlanFits, LaidOut, Tiled;
    ComputedReady(p, deviceSize, logicalSector, physicalSector, g);
    var d0 := DefaultsAreQuarters(p, deviceSize, logicalSector, physicalSector, g);
    QuartersLeaveRoom(g, d0);
    EveryPlanFits(g);
  }

  /** The log of every computed geometry is within the format's limits and its group, at its start. */
  lemma ComputedLog(p: Params, deviceSize: nat, logicalSector: nat, physicalSector: nat, g: Geometry)
    requires Computed(p, deviceSize, logicalSector, physicalSector) == Ok(g)
    ensures 64 * MIB <= g.logblocks * g.blocksize <= MAX_LOG_BYTES && g.logblocks <= MAX_LOG_BLOCKS
    ensures 0 < g.logagno < g.agcount && g.logAgbno == g.PreallocBlocks()
    ensures g.PreallocBlocks() + g.logblocks + 5 <= g.agsize
  {
    hide Computed;
    ComputedShapes(p, deviceSize, logicalSector, physicalSector, g);
    LogHasPlace(g);
    LogSizes(g.blocksize);
    LogBlocksIs(g);
    hide AgMin, Blocks, AgMax, LogBlocks, LogFrom, Accepted;
    MoreThan(g.logblocks, g.blocksize, Blocks(MAX_LOG_BYTES, g.blocksize), MAX_LOG_BYTES);
    MoreThan(g.logblocks, g.blocksize, Blocks(64 * MIB, g.blocksize), 64 * MIB);
  }

  /** A given count of groups tiles the device; the source takes this for granted. */
  predicate CountsFit(p: Params, deviceSize: nat, logicalSector: nat, physicalSector: nat) {
    var r := Computed(p, deviceSize, logicalSector, physicalSector);
    r.Ok? && Counted(p) ==> CountFits(r.value.dblocks, r.value.agcount)
  }

  /**
   Compute a geometry and plan its groups. With default groups only the parameters can be refused,
   and the free blocks add up to what the secondary superblocks start from, less the root chunk.
   */
  method Plan(p: Params, deviceSize: nat, logicalSector: nat, physicalSector: nat)
      returns (g: Result<Geometry>, plans: Result<seq<AgPlan>>, fdblocks: nat)
    requires CountsFit(p, deviceSize, logicalSector, physicalSector)
    ensures g == Computed(p, deviceSize, logicalSector, physicalSector)
    ensures g.Ok? && p.agsize.None? && p.agcount.None? ==> plans.Ok?
    ensures g.Ok? ==> (plans.Ok? <==> LogLeavesRoom(g.value))
    ensures g.Ok? && plans.Ok? ==>
              && |plans.value| == g.value.agcount
              && (forall a :: 0 <= a < |plans.value| ==> plans.value[a].agno == a && plans.value[a].Valid(g.value))
              && fdblocks == g.value.InitialFdblocks() - g.value.ChunkBlocks()
  {
    fdblocks := 0;
    g := Compute.Compute(p, deviceSize, logicalSector, physicalSector);
    if g.Err? {
      return g, Err(g.error), fdblocks;
    }
    hide Computed, Ready, LogLeavesRoom, PlanFits, LaidOut, Tiled;
    ComputedReady(p, deviceSize, logicalSector, physicalSector, g.value);
    EveryPlanFits(g.value);
    if p.agsize.None? && p.agcount.None? {
      DefaultsPlan(p, deviceSize, logicalSector, physicalSector, g.value);
    }
    LogAtStart(g.value);
    plans, fdblocks := PlanAll(g.value);
  }

  lemma LogAtStart(g: Geometry)
    requires Ready(g)
    ensures g.logAgbno == g.PreallocBlocks() && g.ChunkBlocks() > 0
  {
    SmallPlaces(g);
  }
}
