/** Two filesystems that a UUID is not set on: one with changes to replay, and one marked for repair. */
module Refusals {
  import opened Prelude
  import opened Bytes
  import opened Device
  import opened SuperblockCodec
  import opened Identity
  import opened SbRewrite
  import opened Superblocks
  import opened LogInBytes
  import opened SuperblockInBytes
  import opened AdminInBytes
  import Geometry
  import AgGeometry
  import Compute
  import Planning
  import AgPlan
  import Checksum
  import LogFinder
  import LogReader
  import LogClear
  import FormatImage
  import Lifecycle
  import Admin

  type Geom = Geometry.Geometry

  // ---------------------------------------------------------------------------------------
  // Changes to replay.

  /** Turn the unmount operation of the log at `start` into an ordinary one. */
  method ClearFlag(dev: MemDevice, start: nat, bs: nat)
    requires dev.Valid() && dev.Accepts(start, bs) && bs >= 1024 && start + bs <= dev.size
    modifies dev
    ensures dev.Valid() && dev.Contents() == old(dev.Contents())[start + 512 + 9 := 0]
  {
    ghost var was := dev.Contents();
    var b := new byte[bs];
    var read := dev.ReadAt(start, b);
    b[512 + 9] := 0;
    hide Splice;
    var written := dev.WriteAt(start, b[..]);
    OneByte(was, start, bs, b[..], dev.Contents());
  }

  lemma OneByte(was: seq<byte>, start: nat, bs: nat, b: seq<byte>, now: seq<byte>)
    requires bs >= 1024 && start + bs <= |was| && b == was[start..start + bs][512 + 9 := 0]
    requires now == Splice(was, start, b)
    ensures now == was[start + 512 + 9 := 0]
  {
  }

  lemma OneByteWithin(was: seq<byte>, start: nat, len: nat, at: nat)
    requires start + len <= |was| && at < len
    ensures SameBut(was, was[start + at := 0], start, len)
    ensures was[start + at := 0][start..start + len] == was[start..start + len][at := 0]
  {
  }

  /** What the search makes of a formatted log with its flag cleared. */
  lemma FlagClearedTail(
      dev: MemDevice, flat: seq<byte>, g: Geom, states: seq<SbState>, uuid: Uuid, log: seq<byte>, geo: Geo)
    requires Lifecycle.Formats(dev, g, states, uuid) && |flat| == dev.size && dev.Valid()
    requires FormatImage.Written(flat, g, states, log, g.agcount) && FormatImage.FreshLog(log, g, uuid)
    requires FormatImage.LogByte(g) + 512 + 9 < |flat| && dev.Contents() == flat[FormatImage.LogByte(g) + 512 + 9 := 0]
    requires geo.Shape() == GeoOf(g).Shape()
    ensures Admin.LogTail(dev, geo).Ok? && Admin.LogTail(dev, geo).value.Dirty()
    ensures Admin.LogTail(dev, geo).value == LogFinder.LogState(RecordBlocks(FormatImage.LogUnit(g)), 0, 1)
  {
    hide FormatImage.SectorAt, AgGeometry.Pow2, FormatImage.LogByte, FormatImage.LogBbs, FormatImage.Spaced, Encodable;
    hide Geo.Shape, GeoOf, Geo.Sane, LogFinder.FindTail, LogReader.Decoded, LogClear.ClearedBytes, FormatImage.LogUnit;
    hide Admin.LogByte, Admin.LogBbs, RecordBlocks, LogReader.Extent, FormatImage.Hosts;
    var start, bbs, unit := FormatImage.LogByte(g), FormatImage.LogBbs(g), FormatImage.LogUnit(g);
    var after := dev.Contents();
    Lifecycle.SamePlaces(g, states[0], 0);
    BlocksAre(GeoOf(g));
    Admin.LogSameShape(GeoOf(g), geo);
    FormatImage.LogInBlocks(g);
    OneByteWithin(flat, start, FormatImage.LogLen(g), 512 + 9);
    LogReader.ExtentIsContents(dev, start, bbs, 0, bbs * 512);
    assert Admin.LogBytes(dev, geo)[0..bbs * 512] == Admin.LogBytes(dev, geo);
    UnitIsSmall(g);
    UnmountCleared(log, log[512 + 9 := 0], bbs, uuid, unit);
    TwoOrMore(unit);
  }

  lemma BlocksAre(geo: Geo)
    requires geo.Sane()
    ensures geo.blocksize > 0
  {
    SaneSizes(geo);
  }

  lemma UnitIsSmall(g: Geom)
    requires AgGeometry.Supported(g.blocksize)
    ensures FormatImage.LogUnit(g) <= 32768
  {
  }

  lemma TwoOrMore(sunit: nat)
    ensures RecordBlocks(sunit) >= 2
  {
  }

  /** The filesystem still opens with one byte of its log changed. */
  lemma OpensWithChanges(
      dev: MemDevice, flat: seq<byte>, g: Geom, states: seq<SbState>, uuid: Uuid, log: seq<byte>, mid: seq<byte>)
      returns (geo: Geo)
    requires Lifecycle.Formats(dev, g, states, uuid) && |flat| == dev.size
    requires FormatImage.Written(flat, g, states, log, g.agcount) && FormatImage.FreshLog(log, g, uuid)
    requires FormatImage.LogByte(g) + 512 + 9 < |flat| && mid == flat[FormatImage.LogByte(g) + 512 + 9 := 0]
    ensures 264 <= dev.size && Admin.Opens(dev, mid) == Ok(geo) && geo.Shape() == GeoOf(g).Shape()
    ensures Admin.Suits(dev, geo)
  {
    hide FormatImage.SectorAt, AgGeometry.Pow2, FormatImage.LogByte, FormatImage.LogBbs, FormatImage.Spaced, Encodable;
    hide Geo.Shape, GeoOf, Geo.Sane, LogClear.ClearedBytes, FormatImage.LogUnit, SbAt, Admin.LogAt, Admin.AllRead;
    hide Admin.LogByte, Admin.LogBbs, FormatImage.Hosts, Admin.Opens, Rewrote, AllEffective;
    var was := GeoOf(g);
    Lifecycle.FormattedStands(dev, flat, g, states, uuid, log);
    Lifecycle.SamePlaces(g, states[0], 0);
    FormatImage.LogInBlocks(g);
    OneByteWithin(flat, FormatImage.LogByte(g), FormatImage.LogLen(g), 512 + 9);
    assert OnDevice(flat, was, 0);
    RewroteNone(mid, was, SbAt(flat, was, 0).Effective(), uuid);
    geo := Admin.Reopens(dev, was, flat, mid, mid, uuid, 0);
    Admin.ShapeSuits(dev, was, geo);
  }

  /**
   Format, turn the log's unmount operation into an ordinary one, and set a UUID: it is refused, as the log
   holds changes to replay, and nothing is written.
   */
  method FormatThenDirty(
      p: Compute.Params, deviceSize: nat, logical: nat, physical: nat, g: Geom, dev: MemDevice,
      states: seq<SbState>, rest: FormatImage.Rest, uuid: Uuid, to: Uuid, limit: nat)
      returns (r: Result<()>, ghost before: seq<byte>)
    requires Compute.Computed(p, deviceSize, logical, physical) == Ok(g)
    requires AgPlan.Tiled(g) && Planning.LogLeavesRoom(g) && dev.Valid() && FormatImage.Hosts(dev, g)
    requires FormatImage.CanWrite(g, states, rest)
    requires forall a :: 0 <= a < g.agcount ==> states[a].uuid == uuid
    modifies dev
    ensures dev.Valid() && r == Err(NeedsRecovery) && dev.Contents() == before
    ensures FormatImage.LogByte(g) + 512 + 9 < |before| && before[FormatImage.LogByte(g) + 512 + 9] == 0
  {
    hide Compute.Computed, AgPlan.Tiled, Planning.LogLeavesRoom, AgGeometry.Pow2, FormatImage.Spaced, Encodable;
    hide FormatImage.Hosts, FormatImage.LogBbs, FormatImage.LogByte, FormatImage.Written, FormatImage.FreshLog;
    hide GeoOf, Geo.Shape, Geo.Sane, Admin.Opens, Admin.Suits, Admin.LogTail, Admin.Outcome, LogFinder.FindTail;
    Lifecycle.ComputedIsSpaced(p, deviceSize, logical, physical, g);
    var _, log, _, _ := FormatImage.Format(dev, g, states, rest, uuid);
    ghost var flat := dev.Contents();
    FirstBlockTaken(dev, g);
    ClearFlag(dev, FormatImage.LogByte(g), g.blocksize);
    before := dev.Contents();
    ghost var geo := OpensWithChanges(dev, flat, g, states, uuid, log, before);
    FlagClearedTail(dev, flat, g, states, uuid, log, geo);
    ghost var tail := Admin.LogTail(dev, geo);
    SuitsIsReady(dev, geo);
    OpenOnDevice(dev, before, geo);
    ghost var mid, n := [], 0;
    r, mid, n := Admin.SetUuid(dev, to, limit, tail);
    NotClean(dev, geo, before, mid, dev.Contents(), to, limit, tail, n, r);
  }

  lemma FirstBlockTaken(dev: MemDevice, g: Geom)
    requires FormatImage.Hosts(dev, g) && FormatImage.Spaced(g) && AgGeometry.Supported(g.blocksize)
    requires LogFinder.TOTAL_REC_BBS <= FormatImage.LogBbs(g)
    ensures dev.Accepts(FormatImage.LogByte(g), g.blocksize) && g.blocksize >= 1024
    ensures FormatImage.LogByte(g) + g.blocksize <= dev.size
  {
    FormatImage.LogInBlocks(g);
    FormatImage.LogFits(g);
    FormatImage.LogHasBlock(g);
    MulAtLeast(g.logblocks, g.blocksize);
    hide FormatImage.LogByte, FormatImage.LogBbs, FormatImage.Spaced;
    FormatImage.HostsBlocks(dev, g, FormatImage.LogByte(g), 1);
  }

  lemma SuitsIsReady(dev: MemDevice, geo: Geo)
    requires Admin.Suits(dev, geo)
    ensures geo.Sane() && Admin.LogKnown(geo)
    ensures LogReader.AcceptsWindows(dev, Admin.LogByte(geo), Admin.LogBbs(geo))
  {
    hide Geo.Sane, Geo.LogExtent, Admin.Apart;
  }

  lemma OpenOnDevice(dev: MemDevice, flat: seq<byte>, geo: Geo)
    requires |flat| == dev.size >= 264 && Admin.Opens(dev, flat) == Ok(geo)
    ensures geo.Sane() && OnDevice(flat, geo, 0)
  {
    hide Geo.Sane, OpenError, SbAt;
  }

  // ---------------------------------------------------------------------------------------
  // A filesystem marked for repair.

  /** Mark the primary superblock as needing repair, and store its checksum again. */
  method MarkForRepair(dev: MemDevice, bs: nat, sectsize: nat)
    requires dev.Valid() && dev.Accepts(0, bs) && 264 <= sectsize <= bs <= dev.size
    modifies dev
    ensures dev.Valid()
    ensures IsMarked(old(dev.Contents()), dev.Contents(), sectsize)
    ensures forall i :: bs <= i < dev.size ==> dev.Contents()[i] == old(dev.Contents())[i]
  {
    hide Splice, Be32, Checksum.Sealed;
    ghost var was := dev.Contents();
    var b := new byte[bs];
    var read := dev.ReadAt(0, b);
    ghost var first := b[..];
    var word := Be32(b[..], 216);
    if word / 0x10 % 2 == 0 {
      BitFits(word);
      Put32(b, 216, word + 0x10);
    }
    ghost var marked := b[..];
    assert forall i :: 0 <= i < bs && !(216 <= i < 220) ==> marked[i] == first[i];
    Checksum.Seal(b, sectsize, 224);
    var written := dev.WriteAt(0, b[..]);
    MarkedBytes(was, marked, b[..], dev.Contents(), sectsize);
  }

  lemma BitFits(word: nat)
    requires word < TWO_32 && word / 0x10 % 2 == 0
    ensures word + 0x10 < TWO_32 && (word + 0x10) / 0x10 % 2 == 1
  {
  }

  /** The bit is set and the checksum right, and nothing but these two words has changed. */
  ghost predicate IsMarked(was: seq<byte>, now: seq<byte>, sectsize: nat) {
    && 264 <= sectsize <= |was| == |now| && Be32(now, 216) / 0x10 % 2 == 1 && Checksum.Sealed(now[..sectsize], 224)
    && forall i :: 0 <= i < |was| && !(216 <= i < 220 || 224 <= i < 228) ==> now[i] == was[i]
  }

  lemma MarkedBytes(was: seq<byte>, marked: seq<byte>, b: seq<byte>, now: seq<byte>, sectsize: nat)
    requires 264 <= sectsize <= |marked| == |b| <= |was| && now == Splice(was, 0, b)
    requires Be32(marked, 216) / 0x10 % 2 == 1 && Checksum.Sealed(b[..sectsize], 224)
    requires forall i :: 0 <= i < |b| && !(216 <= i < 220) ==> marked[i] == was[i]
    requires forall i :: 0 <= i < |b| && !(224 <= i < 228) ==> b[i] == marked[i]
    ensures IsMarked(was, now, sectsize)
  {
    hide Be32, Checksum.Sealed;
    SameField(marked, now, 216);
    assert now[..sectsize] == b[..sectsize];
  }

  function HeadOf(dev: MemDevice): nat {
    var sector := if dev.logical < 512 then 512 else dev.logical;
    if dev.size < sector then dev.size else sector
  }

  /** What an open filesystem's first block is known to be. */
  lemma OpenedIs(dev: MemDevice, flat: seq<byte>, geo: Geo)
    requires |flat| == dev.size >= 264 && Admin.Opens(dev, flat) == Ok(geo)
    ensures dev.Check(0, HeadOf(dev)).Ok? && 264 <= HeadOf(dev) <= dev.size && Parse(flat[..HeadOf(dev)]) == Ok(geo)
    ensures 264 <= geo.sectsize <= geo.blocksize <= |flat| && dev.Check(0, geo.blocksize).Ok?
    ensures LooksGood(flat[..geo.blocksize], geo.sectsize)
  {
    OpensInBytes(dev, flat);
    hide Admin.Opens, Be32, Be64, Checksum.Sealed, Parse;
  }

  /** A marked filesystem needs recovery, whatever else it holds. */
  lemma MarkedIsRefused(dev: MemDevice, was: seq<byte>, now: seq<byte>, geo: Geo)
    requires |was| == |now| == dev.size >= 264 && Admin.Opens(dev, was) == Ok(geo) && IsMarked(was, now, geo.sectsize)
    ensures Admin.Opens(dev, now) == Err(NeedsRecovery)
  {
    hide Admin.Opens, Be32, Be64, Checksum.Sealed, Parse, Geo.Shape, Admit;
    OpenedIs(dev, was, geo);
    ParsesAgain(was[..HeadOf(dev)], now[..HeadOf(dev)]);
    SameSizes(geo, Parse(now[..HeadOf(dev)]).value);
    MarkedBlock(was, now, geo.blocksize, geo.sectsize);
    OpensInBytes(dev, now);
  }

  lemma MarkedBlock(was: seq<byte>, now: seq<byte>, bs: nat, sectsize: nat)
    requires 264 <= sectsize <= bs <= |was| && IsMarked(was, now, sectsize) && LooksGood(was[..bs], sectsize)
    ensures LooksGood(now[..bs], sectsize) && Be32(now[..bs], 216) / 0x10 % 2 == 1
  {
    hide Be32, Checksum.Sealed;
    SameMagic(was[..bs], now[..bs]);
    assert now[..bs][..sectsize] == now[..sectsize];
    SameField(now, now[..bs], 216);
  }

  lemma SameSizes(g: Geo, h: Geo)
    requires g.Shape() == h.Shape()
    ensures g.blocksize == h.blocksize && g.sectsize == h.sectsize
  {
  }

  lemma SameMagic(a: seq<byte>, b: seq<byte>)
    requires |a| == |b| >= 4 && a[0] == b[0] && a[1] == b[1] && a[2] == b[2] && a[3] == b[3]
    ensures a[0..4] == b[0..4]
  {
  }

  /**
   Format, mark the primary superblock as needing repair with its checksum right, and set a UUID: it is
   refused and nothing is written.
   */
  method FormatThenMark(
      p: Compute.Params, deviceSize: nat, logical: nat, physical: nat, g: Geom, dev: MemDevice,
      states: seq<SbState>, rest: FormatImage.Rest, uuid: Uuid, to: Uuid, limit: nat)
      returns (r: Result<()>, ghost before: seq<byte>)
    requires Compute.Computed(p, deviceSize, logical, physical) == Ok(g)
    requires AgPlan.Tiled(g) && Planning.LogLeavesRoom(g) && dev.Valid() && FormatImage.Hosts(dev, g)
    requires FormatImage.CanWrite(g, states, rest)
    requires forall a :: 0 <= a < g.agcount ==> states[a].uuid == uuid
    modifies dev
    ensures dev.Valid() && r == Err(NeedsRecovery) && dev.Contents() == before
    ensures 264 <= |before| && Be32(before, 216) / 0x10 % 2 == 1
  {
    hide Compute.Computed, AgPlan.Tiled, Planning.LogLeavesRoom, AgGeometry.Pow2, FormatImage.Spaced, Encodable;
    hide FormatImage.Hosts, FormatImage.LogBbs, FormatImage.LogByte, FormatImage.Written, FormatImage.FreshLog;
    hide GeoOf, Geo.Shape, Geo.Sane, Admin.Opens, Admin.Outcome, Be32;
    Lifecycle.ComputedIsSpaced(p, deviceSize, logical, physical, g);
    var _, log, _, _ := FormatImage.Format(dev, g, states, rest, uuid);
    ghost var flat := dev.Contents();
    Lifecycle.FormattedOpens(dev, flat, g, states, uuid, log);
    PrimaryTaken(dev, g, states[0]);
    MarkForRepair(dev, g.blocksize, g.sectsize);
    before := dev.Contents();
    MarkedIsRefused(dev, flat, before, GeoOf(g));
    ghost var tail: Result<LogFinder.LogState> := Err(Io);
    ghost var mid, n := [], 0;
    r, mid, n := Admin.SetUuid(dev, to, limit, tail);
  }

  lemma PrimaryTaken(dev: MemDevice, g: Geom, s: SbState)
    requires FormatImage.Hosts(dev, g) && FormatImage.Spaced(g) && Encodable(g, s)
    requires g.logAgbno < AgGeometry.Pow2(g.agblklog)
    ensures dev.Accepts(0, g.blocksize) && 264 <= g.sectsize <= g.blocksize <= dev.size
    ensures GeoOf(g).sectsize == g.sectsize
  {
    hide AgGeometry.Pow2, Encodable, FormatImage.Spaced;
    Lifecycle.GroupBlock(dev, g, 0);
    SizesInRange(g, s);
    ZeroAt(g);
  }

  lemma ZeroAt(g: Geom)
    ensures FormatImage.At(g, 0) == 0
  {
  }
}
