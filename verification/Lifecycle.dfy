/** A formatted filesystem, from the geometry chosen for it through any number of new UUIDs. */
module Lifecycle {
  import opened Prelude
  import opened Bytes
  import opened SuperblockCodec
  import opened Identity
  import opened SbRewrite
  import opened Superblocks
  import opened Device
  import Geometry
  import AgGeometry
  import Compute
  import Planning
  import AgPlan
  import Checksum
  import LogFinder
  import LogClear
  import LogInBytes
  import FormatImage
  import FormatProtocol
  import Admin

  type Geom = Geometry.Geometry

  // ---------------------------------------------------------------------------------------
  // What was encoded, as the admin tool reads it.

  lemma StartsAlike(a: seq<byte>, b: seq<byte>)
    requires SB_END <= |a| && SB_END <= |b| && a[..SB_END] == b[..SB_END]
    ensures Sb(a) == Sb(b) && Be32(a, 0) == Be32(b, 0) && Parse(a) == Parse(b)
  {
    forall i | 0 <= i < SB_END
      ensures a[i] == b[i]
    {
      assert a[..SB_END][i] == b[..SB_END][i];
    }
    hide Be16, Be32, Be64, Geo.Sane;
    assert a[UUID_OFF..UUID_OFF + 16] == b[UUID_OFF..UUID_OFF + 16];
    assert a[META_UUID_OFF..META_UUID_OFF + 16] == b[META_UUID_OFF..META_UUID_OFF + 16];
    ReadsTheSame(a, b);
    SameField(a, b, INCOMPAT_OFF);
    SameWide(a, b, 16);
    SameWide(a, b, 48);
    SameWide(a, b, UQUOTINO_OFF);
    SameWide(a, b, GQUOTINO_OFF);
    SameWide(a, b, PQUOTINO_OFF);
    SameField(a, b, FEATURES2_OFF);
    SameField(a, b, BAD_FEATURES2_OFF);
  }

  lemma EncodedSb(b: seq<byte>, g: Geom, s: SbState)
    requires g.logAgbno < AgGeometry.Pow2(g.agblklog) && SB_END <= |b| && HoldsAll(b, Fields(g, s)) && |s.uuid| == 16
    ensures Be32(b, 0) == SB_MAGIC && Sb(b).uuid == s.uuid && Sb(b).incompat == Incompat(g.features)
    ensures Sb(b).rblocks == 0 && Sb(b).logstart == LogStart(g)
  {
    HoldsParts(b, g, s);
    hide Fields, AgGeometry.Pow2, LogStart, Log2, InoPerBlock, Incompat, Be32, Be64;
    assert Holds(b, Names(g, s)[0]) && Holds(b, Names(g, s)[3]) && Holds(b, Names(g, s)[5]);
    assert Holds(b, Names(g, s)[6]) && Holds(b, FeatureFields(g)[7]);
  }

  lemma EncodedFeatures(f: Geometry.Features)
    ensures Incompat(f) < FIRST_UNKNOWN && !HasBit(Incompat(f), IN_META_UUID) && !HasBit(Incompat(f), IN_NEEDSREPAIR)
  {
    var b, s, n := Geometry.Flag(f.bigtime), Geometry.Flag(f.sparse), Geometry.Flag(f.nrext64);
    assert Incompat(f) == 1 + 2 * s + 8 * b + 32 * n;
  }

  /** An encoded superblock is opened, and carries its own UUID. */
  lemma EncodedOpens(b: seq<byte>, g: Geom, s: SbState)
    requires g.logAgbno < AgGeometry.Pow2(g.agblklog) && SB_END <= |b| && HoldsAll(b, Fields(g, s)) && |s.uuid| == 16
    requires g.logAgbno > 0
    ensures OpenError(Sb(b)).None? && Sb(b).Effective() == s.uuid
  {
    EncodedSb(b, g, s);
    StartsAbove(g);
    hide Fields, Sb, HasBit, Incompat, AgGeometry.Pow2, LogStart;
    EncodedFeatures(g.features);
  }

  lemma StartsAbove(g: Geom)
    requires g.logAgbno < AgGeometry.Pow2(g.agblklog)
    ensures LogStart(g) >= g.logAgbno
  {
  }

  /** The first units a format writes are told apart by the progress byte, whatever else they hold. */
  lemma EncodedTells(
      parts: FormatProtocol.Parts, g: Geom, s: SbState, s': SbState)
    requires g.logAgbno < AgGeometry.Pow2(g.agblklog)
    requires SB_END <= |parts.finished| && HoldsAll(parts.finished, Fields(g, s)) && !s.inprogress
    requires parts.heads != [] && parts.heads[0] != [] && SB_END <= |parts.heads[0][0]|
    requires HoldsAll(parts.heads[0][0], Fields(g, s')) && s'.inprogress
    requires forall i :: 0 <= i < |parts.zero| ==> parts.zero[i] == 0
    ensures FormatProtocol.Tells(parts, IsFinished)
  {
    FinishedIff(parts.finished, parts.zero, g, s);
    FinishedIff(parts.heads[0][0], parts.zero, g, s');
  }

  // ---------------------------------------------------------------------------------------
  // A device that takes whole blocks takes the first read, of whole sectors.

  lemma {:induction false} DivisorIsPower(n: nat, d: pos, k: nat)
    requires Compute.PowerOfTwo(n) && n == d * k
    ensures Compute.PowerOfTwo(d)
    decreases n
  {
    if n == 1 {
      if d > 1 {
        MulAtLeast(k, d);
      }
    } else if d % 2 == 0 {
      assert n / 2 == d / 2 * k;
      DivisorIsPower(n / 2, d / 2, k);
    } else {
      OddTimes(d, k);
      assert n / 2 == d * (k / 2);
      DivisorIsPower(n / 2, d, k / 2);
    }
  }

  lemma OddTimes(d: nat, k: nat)
    requires d % 2 == 1
    ensures d * k % 2 == k % 2
  {
    var a := d / 2;
    assert d * k == 2 * (a * k) + k;
  }

  lemma SmallDivides(d: pos)
    requires Compute.PowerOfTwo(d) && d < 512
    ensures 512 % d == 0
  {
    hide Compute.PowerOfTwo;
    Compute.PowersListed(d);
  }

  lemma HeadIsRead(dev: MemDevice, bs: pos)
    requires Compute.PowerOfTwo(bs) && 512 <= bs <= dev.size < TWO_64 && (dev.strict ==> bs % dev.logical == 0)
    ensures dev.Check(0, Admin.HeadLen(dev)).Ok? && Admin.HeadLen(dev) >= 512
  {
    hide Compute.PowerOfTwo;
    if dev.strict {
      var k := bs / dev.logical;
      assert bs == dev.logical * k;
      DivisorIsPower(bs, dev.logical, k);
      if k > 0 {
        MulAtLeast(k, dev.logical);
      }
      if dev.logical < 512 {
        SmallDivides(dev.logical);
      }
    }
  }

  // ---------------------------------------------------------------------------------------
  // The whole image.

  /** A geometry and states that can be formatted, on a device that hosts them. */
  predicate Formats(dev: MemDevice, g: Geom, states: seq<SbState>, uuid: Uuid) {
    && FormatImage.Hosts(dev, g) && FormatImage.Spaced(g) && AgGeometry.Supported(g.blocksize)
    && |states| == g.agcount && (forall a :: 0 <= a < g.agcount ==> Encodable(g, states[a]) && states[a].uuid == uuid)
    && LogFinder.TOTAL_REC_BBS <= FormatImage.LogBbs(g) < TWO_32
    && g.logAgbno < AgGeometry.Pow2(g.agblklog)
  }

  /** The parsed geometry says where everything was written. */
  lemma SamePlaces(g: Geom, s: SbState, a: nat)
    requires Encodable(g, s) && g.logAgbno < AgGeometry.Pow2(g.agblklog)
    ensures GeoOf(g).Sane() && SbByte(GeoOf(g), a) == FormatImage.At(g, a)
    ensures Admin.LogByte(GeoOf(g)) == FormatImage.LogByte(g) && Admin.LogBbs(GeoOf(g)) == FormatImage.LogBbs(g)
  {
    hide AgGeometry.Pow2, Log2, LogStart, InoPerBlock, LogsUnit, RoCompat, Incompat, Encodable, Geo.Sane;
    hide Geo.LogExtent;
    SaneAgain(g, s);
    LogIsFound(g, s);
  }

  /** The sector a group's block starts with, and what follows it. */
  lemma SectorIsGood(sector: seq<byte>, block: seq<byte>, g: Geom, s: SbState)
    requires g.logAgbno < AgGeometry.Pow2(g.agblklog) && Encodable(g, s) && g.logAgbno > 0
    requires FormatImage.SectorIs(sector, g, s) && |sector| <= |block| && block[..|sector|] == sector
    ensures SB_END <= g.sectsize <= |block| && Good(block, g.sectsize) && Parse(block) == Ok(GeoOf(g))
    ensures OpenError(Sb(block)).None? && Sb(block).Effective() == s.uuid
  {
    hide Encodable, Fields, HoldsAll, AgGeometry.Pow2, Checksum.Sealed, Sb, Parse, OpenError, GeoOf, Be32;
    assert block[..SB_END] == block[..|sector|][..SB_END];
    StartsAlike(sector, block);
    RoundTrip(sector, g, s);
    assert |s.uuid| == 16 by {
      EncodesUuid(g, s);
    }
    EncodedSb(sector, g, s);
    EncodedOpens(sector, g, s);
  }

  lemma EncodesUuid(g: Geom, s: SbState)
    requires Encodable(g, s)
    ensures |s.uuid| == 16
  {
    hide Compute.Shaped, Compute.PowerOfTwo;
  }

  /** A written group's superblock is read as encoded. */
  lemma GroupIsRead(dev: MemDevice, flat: seq<byte>, g: Geom, a: nat, s: SbState)
    requires FormatImage.Hosts(dev, g) && FormatImage.Spaced(g) && Encodable(g, s) && a < g.agcount
    requires g.logAgbno < AgGeometry.Pow2(g.agblklog) && |flat| == dev.size
    requires FormatImage.SectorAt(flat, g, a, s)
    ensures GeoOf(g).Sane() && Admin.SbError(dev, flat, GeoOf(g), a).None?
    ensures OpenError(SbAt(flat, GeoOf(g), a)).None? && SbAt(flat, GeoOf(g), a).Effective() == s.uuid
  {
    hide Encodable, AgGeometry.Pow2, FormatImage.SectorIs, Sb, OpenError, Good, SbByte, FormatImage.At;
    hide FormatImage.HeadBytes, Geo.Sane, Parse;
    SamePlaces(g, s, a);
    GroupBlock(dev, g, a);
    var at := FormatImage.At(g, a);
    var block := flat[at..at + g.blocksize];
    assert block[..g.sectsize] == flat[at..at + g.sectsize];
    SectorIsGood(flat[at..at + g.sectsize], block, g, s);
  }

  lemma GroupBlock(dev: MemDevice, g: Geom, a: nat)
    requires FormatImage.Hosts(dev, g) && FormatImage.Spaced(g) && a < g.agcount
    ensures g.sectsize <= g.blocksize && FormatImage.At(g, a) + g.blocksize <= dev.size
    ensures dev.Check(FormatImage.At(g, a), g.blocksize).Ok? && g.logAgbno > 0
  {
    FormatImage.HeadFits(g, a);
    FormatImage.SectorInHead(g);
    FormatImage.GroupAligned(g, a, 1);
    FormatImage.HostsBlocks(dev, g, FormatImage.At(g, a), 1);
  }

  /** So is the start of the device. */
  lemma StartIsParsed(flat: seq<byte>, g: Geom, s: SbState, len: nat)
    requires FormatImage.Spaced(g) && Encodable(g, s) && g.logAgbno < AgGeometry.Pow2(g.agblklog)
    requires FormatImage.SectorAt(flat, g, 0, s) && 512 <= len <= |flat|
    ensures Parse(flat[..len]) == Ok(GeoOf(g))
  {
    hide Encodable, AgGeometry.Pow2, HoldsAll, Fields, Checksum.Sealed, Parse, GeoOf, FormatImage.Spaced;
    assert FormatImage.At(g, 0) == 0;
    var sector := flat[0..g.sectsize];
    RoundTrip(sector, g, s);
    assert sector[..SB_END] == flat[..len][..SB_END];
    StartsAlike(sector, flat[..len]);
  }

  ghost predicate GroupStands(dev: MemDevice, flat: seq<byte>, geo: Geo, a: nat, uuid: Uuid)
    requires geo.Sane() && |flat| == dev.size
  {
    && Admin.SbError(dev, flat, geo, a).None?
    && OpenError(SbAt(flat, geo, a)).None? && SbAt(flat, geo, a).Effective() == uuid
  }

  lemma GroupsStand(dev: MemDevice, flat: seq<byte>, geo: Geo, uuid: Uuid)
    requires geo.Sane() && |flat| == dev.size
    requires forall a: nat :: a < geo.agcount ==> GroupStands(dev, flat, geo, a, uuid)
    ensures Admin.AllRead(dev, flat, geo, geo.agcount) && AllOnDevice(flat, geo)
    ensures AllEffective(Sbs(flat, geo), uuid) && OpenError(Sbs(flat, geo)[0]).None?
  {
    hide Geo.Sane, OpenError, Superblock.Effective, SbAt, OnDevice, GoodAt, Admin.SbError;
    SaneSizes(geo);
    forall a: nat | a < geo.agcount
      ensures Admin.SbError(dev, flat, geo, a).None? && OnDevice(flat, geo, a)
    {
      assert GroupStands(dev, flat, geo, a, uuid);
    }
    forall a | 0 <= a < |Sbs(flat, geo)|
      ensures Sbs(flat, geo)[a].Effective() == uuid
    {
      assert GroupStands(dev, flat, geo, a, uuid);
    }
    assert GroupStands(dev, flat, geo, 0, uuid) && Sbs(flat, geo)[0] == SbAt(flat, geo, 0);
  }

  lemma StandingOpens(dev: MemDevice, flat: seq<byte>, geo: Geo, uuid: Uuid)
    requires geo.Sane() && |flat| == dev.size >= SB_END && GroupStands(dev, flat, geo, 0, uuid)
    requires dev.Check(0, Admin.HeadLen(dev)).Ok? && Admin.HeadLen(dev) >= SB_END
    requires Parse(flat[..Admin.HeadLen(dev)]) == Ok(geo)
    ensures Admin.Opens(dev, flat) == Ok(geo)
  {
    hide Geo.Sane, OpenError, SbAt, OnDevice, GoodAt, Parse, Admin.SbError, Admit, Superblock.Effective;
  }

  /** A formatted filesystem opens, to the geometry it was formatted with. */
  lemma FormattedOpens(dev: MemDevice, flat: seq<byte>, g: Geom, states: seq<SbState>, uuid: Uuid, log: seq<byte>)
    requires Formats(dev, g, states, uuid) && |flat| == dev.size
    requires FormatImage.Written(flat, g, states, log, g.agcount)
    ensures GeoOf(g).Sane() && SB_END <= dev.size && Admin.Opens(dev, flat) == Ok(GeoOf(g))
    ensures Admin.AllRead(dev, flat, GeoOf(g), g.agcount) && AllOnDevice(flat, GeoOf(g))
    ensures AllEffective(Sbs(flat, GeoOf(g)), uuid) && OpenError(Sbs(flat, GeoOf(g))[0]).None?
  {
    hide Encodable, AgGeometry.Pow2, FormatImage.SectorAt, SbAt, OpenError, FormatImage.Spaced, Geo.Sane, Parse;
    hide Admin.SbError, Superblock.Effective, FormatImage.Hosts, Admin.Opens, Log2, LogStart, InoPerBlock, LogsUnit;
    hide RoCompat, Incompat;
    var geo := GeoOf(g);
    SamePlaces(g, states[0], 0);
    forall a: nat | a < geo.agcount
      ensures GroupStands(dev, flat, geo, a, uuid)
    {
      GroupIsRead(dev, flat, g, a, states[a]);
    }
    GroupsStand(dev, flat, geo, uuid);
    Hosted(dev, g, states[0]);
    HeadIsRead(dev, g.blocksize);
    StartIsParsed(flat, g, states[0], Admin.HeadLen(dev));
    StandingOpens(dev, flat, geo, uuid);
  }

  lemma Hosted(dev: MemDevice, g: Geom, s: SbState)
    requires FormatImage.Hosts(dev, g) && FormatImage.Spaced(g) && AgGeometry.Supported(g.blocksize) && Encodable(g, s)
    ensures Compute.PowerOfTwo(g.blocksize) && 512 <= g.blocksize <= dev.size < TWO_64
    ensures dev.strict ==> g.blocksize % dev.logical == 0
  {
    hide Compute.Shaped, Compute.PowerOfTwo;
    FormatImage.HeadFits(g, 0);
    FormatImage.SectorInHead(g);
  }

  /** No superblock's block is over the log. */
  lemma FormattedIsApart(g: Geom, s: SbState)
    requires FormatImage.Spaced(g) && Encodable(g, s) && AgGeometry.Supported(g.blocksize)
    requires g.logAgbno < AgGeometry.Pow2(g.agblklog)
    ensures Admin.Apart(GeoOf(g))
  {
    hide Encodable, AgGeometry.Pow2, FormatImage.Spaced, FormatImage.At, FormatImage.LogByte, FormatImage.LogBbs;
    hide SbByte, Geo.LogExtent, FormatImage.HeadBytes, Log2, LogStart, InoPerBlock, LogsUnit, RoCompat, Incompat;
    var geo := GeoOf(g);
    SamePlaces(g, s, 0);
    FormatImage.LogInBlocks(g);
    FormatImage.SectorInHead(g);
    forall i: nat | i < geo.agcount
      ensures SbByte(geo, i) + geo.blocksize <= Admin.LogByte(geo)
              || Admin.LogByte(geo) + Admin.LogLen(geo) <= SbByte(geo, i)
    {
      SamePlaces(g, s, i);
      FormatImage.HeadsClearLog(g, i);
    }
  }

  lemma LogIsTaken(dev: MemDevice, g: Geom)
    requires FormatImage.Hosts(dev, g) && FormatImage.Spaced(g) && AgGeometry.Supported(g.blocksize)
    ensures LogClear.TakesLog(dev, FormatImage.LogByte(g), FormatImage.LogBbs(g), g.blocksize)
    ensures LogsUnit(g) <= LogClear.MAX_SUNIT
  {
    FormatImage.LogFits(g);
    FormatImage.LogInBlocks(g);
    hide FormatImage.LogByte, FormatImage.LogBbs;
  }

  /** What was formatted can have its log rewritten any number of times. */
  lemma FormattedSuits(dev: MemDevice, g: Geom, s: SbState)
    requires FormatImage.Hosts(dev, g) && FormatImage.Spaced(g) && AgGeometry.Supported(g.blocksize)
    requires Encodable(g, s) && g.logAgbno < AgGeometry.Pow2(g.agblklog)
    requires LogFinder.TOTAL_REC_BBS <= FormatImage.LogBbs(g) < TWO_32
    ensures Admin.Suits(dev, GeoOf(g))
  {
    hide Encodable, AgGeometry.Pow2, FormatImage.Spaced, FormatImage.At, FormatImage.LogByte, FormatImage.LogBbs;
    hide SbByte, Geo.LogExtent, Geo.Sane, FormatImage.HeadBytes, LogClear.TakesLog, Admin.Apart, Admin.LogReady;
    hide Log2, LogStart, InoPerBlock, RoCompat, Incompat, LogsUnit;
    SamePlaces(g, s, 0);
    FormattedIsApart(g, s);
    LogIsTaken(dev, g);
    Admin.WholeBlocksAreEnough(dev, GeoOf(g));
  }

  lemma FreshIsAt(log: seq<byte>, g: Geom, uuid: Uuid)
    requires FormatImage.FreshLog(log, g, uuid)
    ensures Admin.LogAt(log, FormatImage.LogBbs(g), 1)
  {
    hide LogClear.ClearedBytes;
  }

  /**
   The log a format leaves, by its bytes: one unmount record of cycle 1 whose stripe unit is a block, or none
   where the sectors are the smallest, and zeroes.
   */
  lemma FreshInBytes(log: seq<byte>, g: Geom, uuid: Uuid)
    requires FormatImage.FreshLog(log, g, uuid) && AgGeometry.Supported(g.blocksize)
    ensures var unit := if g.sectsize > 512 then g.blocksize else 0;
            var len := LogInBytes.RecordBlocks(unit);
            && LogInBytes.WholeRecord(log, 0, len, uuid, unit, 1, 1, 0)
            && forall i :: 512 * len <= i < 512 * FormatImage.LogBbs(g) ==> i < |log| && log[i] == 0
  {
    hide LogClear.ClearedBytes, FormatImage.LogBbs, LogInBytes.WholeRecord, LogInBytes.RecordBlocks;
    LogInBytes.ClearedInBytes(log, FormatImage.LogBbs(g), uuid, FormatImage.LogUnit(g), 1);
  }

  /** What a format leaves opens, every superblock good, with its log clean at cycle 1. */
  lemma FormattedStands(dev: MemDevice, flat: seq<byte>, g: Geom, states: seq<SbState>, uuid: Uuid, log: seq<byte>)
    requires Formats(dev, g, states, uuid) && |flat| == dev.size
    requires FormatImage.Written(flat, g, states, log, g.agcount) && FormatImage.FreshLog(log, g, uuid)
    ensures Admin.Suits(dev, GeoOf(g)) && Admin.Standing(dev, flat, GeoOf(g), 1)
    ensures AllOnDevice(flat, GeoOf(g))
    ensures AllEffective(Sbs(flat, GeoOf(g)), uuid) && OpenError(Sbs(flat, GeoOf(g))[0]).None?
  {
    hide Encodable, AgGeometry.Pow2, FormatImage.Spaced, FormatImage.LogByte, FormatImage.LogBbs, FormatImage.SectorAt;
    hide Geo.LogExtent, Geo.Sane, Admin.Suits, Admin.Opens, Admin.AllRead, AllOnDevice, LogClear.ClearedBytes;
    hide Log2, LogStart, InoPerBlock, RoCompat, Incompat, LogsUnit, OpenError, SbAt, FormatImage.Hosts, Admin.LogAt;
    hide FormatImage.FreshLog;
    SamePlaces(g, states[0], 0);
    FormatImage.LogInBlocks(g);
    FreshIsAt(log, g, uuid);
    FormattedOpens(dev, flat, g, states, uuid, log);
    FormattedSuits(dev, g, states[0]);
  }

  /** So every run of calls on it, whatever their results, keeps what Admin.EveryRunKeeps says. */
  lemma FormattedCarries(dev: MemDevice, flat: seq<byte>, g: Geom, states: seq<SbState>, uuid: Uuid, log: seq<byte>)
    requires Formats(dev, g, states, uuid) && |flat| == dev.size
    requires FormatImage.Written(flat, g, states, log, g.agcount) && FormatImage.FreshLog(log, g, uuid)
    ensures GeoOf(g).Sane() && Admin.Apart(GeoOf(g)) && Admin.Carries(dev, flat, GeoOf(g), uuid)
  {
    hide Formats, FormatImage.Written, FormatImage.FreshLog, GeoOf, Admin.Opens, Admin.AllRead, Admin.LogAt;
    hide AllEffective, AllOnDevice, Geo.Sane, Admin.Apart, OpenError, Admin.LogReady, Admin.LogKnown;
    FormattedStands(dev, flat, g, states, uuid, log);
  }

  // ---------------------------------------------------------------------------------------
  // From the geometry chosen.

  /** The log's group is inside the data blocks. */
  lemma LogInsideData(g: Geom)
    requires AgPlan.Tiled(g) && g.logAgbno + g.logblocks <= g.AgBlocks(g.logagno)
    ensures g.logagno * g.agsize + g.logAgbno + g.logblocks <= g.dblocks
  {
    if g.logagno < g.agcount - 1 {
      MulGrows(g.logagno + 1, g.agcount - 1, g.agsize);
    }
  }

  lemma LogLength(n: nat, bs: nat)
    requires AgGeometry.Supported(bs) && 64 * Geometry.MIB <= n * bs <= Geometry.MAX_LOG_BYTES
    ensures LogFinder.TOTAL_REC_BBS <= n * (bs / 512) < TWO_32
  {
    var k := bs / 512;
    assert k * 512 == bs;
    assert n * k * 512 == n * bs;
  }

  /**
   Every geometry computed whose groups tile, and whose log leaves its own group room, spaces its
   headers and its log; the log is long enough for the search, short enough for its numbers.
   */
  lemma ComputedIsSpaced(
      p: Compute.Params, deviceSize: nat, logical: nat, physical: nat, g: Geom)
    requires Compute.Computed(p, deviceSize, logical, physical) == Ok(g)
    requires AgPlan.Tiled(g) && Planning.LogLeavesRoom(g)
    ensures FormatImage.Spaced(g) && AgGeometry.Supported(g.blocksize)
    ensures LogFinder.TOTAL_REC_BBS <= FormatImage.LogBbs(g) < TWO_32
    ensures g.logAgbno < AgGeometry.Pow2(g.agblklog)
  {
    hide Compute.Computed, AgGeometry.Pow2, AgGeometry.AgMin, AgGeometry.AgMax, Compute.LogBlocks, AgGeometry.Blocks;
    hide AgGeometry.LogFrom, Compute.AsAsked, Compute.CountFits, FormatProtocol.Placed;
    Planning.ComputedLog(p, deviceSize, logical, physical, g);
    Compute.ComputedShapes(p, deviceSize, logical, physical, g);
    Compute.ComputedTiles(p, deviceSize, logical, physical, g);
    FormatProtocol.ComputedPlaced(p, deviceSize, logical, physical, g);
    Compute.SmallPlaces(g);
    Compute.LogSizes(g.blocksize);
    StartFits(g);
    LogLength(g.logblocks, g.blocksize);
    LogInsideData(g);
    assert AgGeometry.AgMin(g.blocksize) <= g.AgBlocks(g.agcount - 1);
  }

  /**
   Format a computed geometry, whatever the groups' counters and the bytes beside their superblocks,
   then change the UUID any number of times, on any device that takes whole blocks. Every step
   succeeds. The filesystem still opens, in the geometry it was formatted with, its log clean and one
   cycle on for each change; every group has the last UUID set, keeps the first as the one its
   metadata carries, and says so exactly when the two differ.
   */
  method FormatThenSet(
      p: Compute.Params, deviceSize: nat, logical: nat, physical: nat, g: Geom, dev: MemDevice,
      states: seq<SbState>, rest: FormatImage.Rest, uuid: Uuid, tos: seq<Uuid>)
      returns (r: Result<()>, ghost after: Geo)
    requires Compute.Computed(p, deviceSize, logical, physical) == Ok(g)
    requires AgPlan.Tiled(g) && Planning.LogLeavesRoom(g) && dev.Valid() && FormatImage.Hosts(dev, g)
    requires FormatImage.CanWrite(g, states, rest)
    requires forall a :: 0 <= a < g.agcount ==> states[a].uuid == uuid
    requires 1 + |tos| < LogFinder.HEADER_MAGIC
    modifies dev
    ensures dev.Valid() && r.Ok? && g.logAgbno < AgGeometry.Pow2(g.agblklog) && after.Shape() == GeoOf(g).Shape()
    ensures Admin.Standing(dev, dev.Contents(), after, 1 + |tos|)
    ensures after.Sane() && AllOnDevice(dev.Contents(), after) && AllEffective(Sbs(dev.Contents(), after), uuid)
    ensures tos != [] ==> AllNamed(Sbs(dev.Contents(), after), uuid, tos[|tos| - 1])
  {
    hide Compute.Computed, AgPlan.Tiled, Planning.LogLeavesRoom, AgGeometry.Pow2, FormatImage.Spaced;
    hide FormatImage.Hosts, FormatImage.LogBbs, FormatImage.Written, FormatImage.FreshLog, Encodable;
    hide Log2, LogStart, InoPerBlock, LogsUnit, RoCompat, Incompat, Geo.Shape, Geo.Sane;
    hide Admin.Suits, Admin.Standing, AllOnDevice, AllEffective, AllNamed, Sets, History, OpenError;
    ComputedIsSpaced(p, deviceSize, logical, physical, g);
    ghost var log;
    ghost var heads, head;
    r, log, heads, head := FormatImage.Format(dev, g, states, rest, uuid);
    ghost var flat, geo := dev.Contents(), GeoOf(g);
    FormattedStands(dev, flat, g, states, uuid, log);
    Admin.SuitsIsSane(dev, geo);
    r, after := Admin.SetUuids(dev, tos, g.agcount, geo, 1);
    AfterSets(Sbs(flat, geo), tos, geo.agcount, uuid);
    SbsSameShape(dev.Contents(), geo, after);
  }

  /** What a history of completed sets comes to. */
  lemma AfterSets(sbs: seq<Superblock>, tos: seq<Uuid>, groups: nat, uuid: Uuid)
    requires |sbs| == groups > 0 && AllEffective(sbs, uuid) && OpenError(sbs[0]).None?
    ensures var after := History(sbs, Sets(tos, groups));
            AllEffective(after, uuid) && (tos != [] ==> AllNamed(after, uuid, tos[|tos| - 1]))
  {
    EffectiveForever(sbs, Sets(tos, groups), uuid);
    if tos != [] {
      var n := |tos| - 1;
      CompletedSet(sbs, Sets(tos[..n], groups), uuid, tos[n], groups);
    }
  }

  /** Every group has the UUID `to`, and the flag exactly when its metadata carries another. */
  ghost predicate AllNamed(sbs: seq<Superblock>, meta: Uuid, to: Uuid) {
    forall i :: 0 <= i < |sbs| ==> sbs[i].uuid == to && (sbs[i].HasMeta() <==> to != meta)
  }
}
