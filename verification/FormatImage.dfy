/** What a format leaves on a device of what the admin tool reads: every superblock, and the log. */
module FormatImage {
  import opened Prelude
  import opened Bytes
  import opened Device
  import opened SuperblockCodec
  import Geometry
  import opened AgGeometry
  import Compute
  import Checksum
  import FormatProtocol
  import LogFinder
  import LogRecord
  import LogClear

  type Geom = Geometry.Geometry

  /** How much of each end of the device is zeroed. */
  const WHACK_SIZE: nat := 128 * 1024

  // ---------------------------------------------------------------------------------------
  // Places, in bytes.

  /** Headers, roots and log have room in their groups, and the groups on the device. */
  predicate Spaced(g: Geom) {
    && FormatProtocol.Placed(g) && 0 < g.HeaderBlocks() <= g.PreallocBlocks() && g.sectsize <= g.blocksize
    && g.logAgbno + g.logblocks <= g.agsize
    && g.logagno * g.agsize + g.logAgbno + g.logblocks <= g.dblocks
    && (g.agcount - 1) * g.agsize + g.PreallocBlocks() <= g.dblocks
  }

  function At(g: Geom, a: nat): nat {
    a * g.agsize * g.blocksize
  }

  function HeadBytes(g: Geom): nat {
    g.PreallocBlocks() * g.blocksize
  }

  function LogByte(g: Geom): nat {
    (g.logagno * g.agsize + g.logAgbno) * g.blocksize
  }

  function LogBbs(g: Geom): nat {
    g.logblocks * (g.blocksize / LogFinder.BBSIZE)
  }

  function LogLen(g: Geom): nat {
    g.logblocks * g.blocksize
  }

  lemma InBytes(x: nat, y: nat, z: nat, bs: nat)
    requires x + y <= z
    ensures x * bs + y * bs <= z * bs
  {
    MulGrows(x + y, z, bs);
    assert (x + y) * bs == x * bs + y * bs;
  }

  lemma GroupEnds(a: nat, b: nat, size: nat)
    requires a < b
    ensures a * size + size <= b * size
  {
    MulGrows(a + 1, b, size);
    assert (a + 1) * size == a * size + size;
  }

  lemma HeadsApart(g: Geom, a: nat, b: nat)
    requires Spaced(g) && a < b
    ensures At(g, a) + HeadBytes(g) <= At(g, b)
  {
    hide Geometry.Geometry.PreallocBlocks, Geometry.Geometry.HeaderBlocks, Geometry.Geometry.RootChunkAgbno;
    GroupEnds(a, b, g.agsize);
    InBytes(a * g.agsize, g.PreallocBlocks(), b * g.agsize, g.blocksize);
  }

  lemma HeadFits(g: Geom, a: nat)
    requires Spaced(g) && a < g.agcount
    ensures At(g, a) + HeadBytes(g) <= g.dblocks * g.blocksize
  {
    hide Geometry.Geometry.PreallocBlocks, Geometry.Geometry.HeaderBlocks, Geometry.Geometry.RootChunkAgbno;
    MulGrows(a, g.agcount - 1, g.agsize);
    InBytes(a * g.agsize, g.PreallocBlocks(), g.dblocks, g.blocksize);
  }

  lemma LogFits(g: Geom)
    requires Spaced(g)
    ensures LogByte(g) + LogLen(g) <= g.dblocks * g.blocksize
  {
    hide Geometry.Geometry.PreallocBlocks, Geometry.Geometry.HeaderBlocks, Geometry.Geometry.RootChunkAgbno;
    InBytes(g.logagno * g.agsize + g.logAgbno, g.logblocks, g.dblocks, g.blocksize);
  }

  /** No group's headers are over the log. */
  lemma HeadsClearLog(g: Geom, a: nat)
    requires Spaced(g)
    ensures At(g, a) + HeadBytes(g) <= LogByte(g) || LogByte(g) + LogLen(g) <= At(g, a)
  {
    hide Geometry.Geometry.PreallocBlocks, Geometry.Geometry.HeaderBlocks, Geometry.Geometry.RootChunkAgbno;
    var lg := g.logagno * g.agsize;
    if a <= g.logagno {
      MulGrows(a, g.logagno, g.agsize);
      InBytes(a * g.agsize, g.PreallocBlocks(), lg + g.logAgbno, g.blocksize);
    } else {
      GroupEnds(g.logagno, a, g.agsize);
      InBytes(lg + g.logAgbno, g.logblocks, a * g.agsize, g.blocksize);
    }
  }

  lemma SectorInHead(g: Geom)
    requires Spaced(g)
    ensures g.sectsize <= g.blocksize <= g.HeaderBlocks() * g.blocksize <= HeadBytes(g)
  {
    MulGrows(1, g.HeaderBlocks(), g.blocksize);
    MulGrows(g.HeaderBlocks(), g.PreallocBlocks(), g.blocksize);
  }

  // ---------------------------------------------------------------------------------------
  // Writing them.

  /** The device takes whole blocks of this geometry. */
  predicate Hosts(dev: MemDevice, g: Geom) {
    && g.dblocks * g.blocksize <= dev.size < TWO_64
    && (dev.strict ==> g.blocksize % dev.logical == 0)
  }

  lemma HostsBlocks(dev: MemDevice, g: Geom, at: nat, blocks: nat)
    requires Hosts(dev, g) && at % g.blocksize == 0 && at + blocks * g.blocksize <= dev.size
    ensures dev.Accepts(at, blocks * g.blocksize)
  {
    MulMod(blocks, g.blocksize);
    if dev.strict {
      LogClear.BlocksAreSectors(at, g.blocksize, dev.logical);
      LogClear.BlocksAreSectors(blocks * g.blocksize, g.blocksize, dev.logical);
    }
  }

  /** A sector that encodes this state, with its checksum. */
  ghost predicate SectorIs(b: seq<byte>, g: Geom, s: SbState)
    requires g.logAgbno < Pow2(g.agblklog)
  {
    SB_END <= |b| == g.sectsize && HoldsAll(b, Fields(g, s)) && Checksum.Sealed(b, CRC_OFF)
  }

  ghost predicate SectorAt(flat: seq<byte>, g: Geom, a: nat, s: SbState)
    requires g.logAgbno < Pow2(g.agblklog)
  {
    At(g, a) + g.sectsize <= |flat| && SectorIs(flat[At(g, a)..At(g, a) + g.sectsize], g, s)
  }

  lemma SliceKept(flat: seq<byte>, at: nat, data: seq<byte>, p: nat, len: nat)
    requires at + |data| <= |flat| && p + len <= |flat| && (p + len <= at || at + |data| <= p)
    ensures Splice(flat, at, data)[p..p + len] == flat[p..p + len]
  {
  }

  lemma SliceWritten(flat: seq<byte>, at: nat, data: seq<byte>, len: nat)
    requires at + |data| <= |flat| && len <= |data|
    ensures Splice(flat, at, data)[at..at + len] == data[..len]
  {
  }

  /** `n` blocks from the start of group `a`: the encoded superblock, and `rest`. */
  method WriteHead(dev: MemDevice, g: Geom, a: nat, n: nat, s: SbState, rest: seq<byte>)
      returns (r: Result<()>, ghost head: seq<byte>)
    requires dev.Valid() && Hosts(dev, g) && Spaced(g) && Encodable(g, s) && g.logAgbno < Pow2(g.agblklog)
    requires a < g.agcount && 0 < n <= g.PreallocBlocks() && g.sectsize + |rest| == n * g.blocksize
    modifies dev
    ensures dev.Valid() && r.Ok? && |head| == n * g.blocksize
    ensures At(g, a) + |head| <= dev.size && dev.Contents() == Splice(old(dev.Contents()), At(g, a), head)
    ensures g.sectsize <= |head| && SectorIs(head[..g.sectsize], g, s) && head[g.sectsize..] == rest
  {
    hide Encodable, Fields, HoldsAll, Checksum.Sealed, Pow2, At, HeadBytes, Splice;
    var sector := new byte[g.sectsize];
    Encode(g, s, sector);
    head := sector[..] + rest;
    assert head[..g.sectsize] == sector[..] && head[g.sectsize..] == rest;
    HeadFits(g, a);
    GroupAligned(g, a, n);
    HostsBlocks(dev, g, At(g, a), n);
    r := dev.WriteAt(At(g, a), sector[..] + rest);
  }

  lemma GroupAligned(g: Geom, a: nat, n: nat)
    requires n <= g.PreallocBlocks()
    ensures At(g, a) % g.blocksize == 0 && n * g.blocksize <= HeadBytes(g)
  {
    MulMod(a * g.agsize, g.blocksize);
    MulGrows(n, g.PreallocBlocks(), g.blocksize);
  }

  /** What the admin tool reads, once the first `n` groups are written. */
  ghost predicate Written(flat: seq<byte>, g: Geom, states: seq<SbState>, log: seq<byte>, n: nat)
    requires g.logAgbno < Pow2(g.agblklog)
  {
    && n <= |states| && |log| == LogLen(g) && LogByte(g) + LogLen(g) <= |flat|
    && flat[LogByte(g)..LogByte(g) + LogLen(g)] == log
    && forall i :: 0 <= i < n ==> SectorAt(flat, g, i, states[i])
  }

  lemma SectorKept(flat: seq<byte>, g: Geom, a: nat, head: seq<byte>, i: nat, s: SbState)
    requires g.logAgbno < Pow2(g.agblklog) && Spaced(g) && i != a
    requires |head| <= HeadBytes(g) && At(g, a) + |head| <= |flat| && SectorAt(flat, g, i, s)
    ensures SectorAt(Splice(flat, At(g, a), head), g, i, s)
  {
    hide At, HeadBytes, Spaced, SectorIs, Splice, Pow2;
    SectorInHead(g);
    if i < a {
      HeadsApart(g, i, a);
    } else {
      HeadsApart(g, a, i);
    }
    SliceKept(flat, At(g, a), head, At(g, i), g.sectsize);
  }

  /** Group `a` is the next, or one rewritten in another state. */
  lemma WrittenOneMore(
      flat: seq<byte>, g: Geom, olds: seq<SbState>, states: seq<SbState>, log: seq<byte>, n: nat, a: nat,
      head: seq<byte>)
    requires g.logAgbno < Pow2(g.agblklog) && Spaced(g) && Written(flat, g, olds, log, n) && a <= n
    requires |olds| == |states| && forall i :: 0 <= i < |states| && i != a ==> olds[i] == states[i]
    requires a < |states| && g.sectsize <= |head| <= HeadBytes(g) && At(g, a) + |head| <= |flat|
    requires SectorIs(head[..g.sectsize], g, states[a])
    ensures Written(Splice(flat, At(g, a), head), g, states, log, if a == n then n + 1 else n)
  {
    hide At, HeadBytes, LogByte, LogLen, Spaced, SectorIs, SectorAt, Splice, Pow2;
    LogSliceKept(flat, g, a, head);
    SectorHere(flat, g, a, head, states[a]);
    forall i | 0 <= i < n && i != a
      ensures SectorAt(Splice(flat, At(g, a), head), g, i, states[i])
    {
      assert SectorAt(flat, g, i, olds[i]);
      SectorKept(flat, g, a, head, i, states[i]);
    }
  }

  lemma LogSliceKept(flat: seq<byte>, g: Geom, a: nat, head: seq<byte>)
    requires Spaced(g) && |head| <= HeadBytes(g) && At(g, a) + |head| <= |flat| && LogByte(g) + LogLen(g) <= |flat|
    ensures Splice(flat, At(g, a), head)[LogByte(g)..LogByte(g) + LogLen(g)] ==
            flat[LogByte(g)..LogByte(g) + LogLen(g)]
  {
    hide At, HeadBytes, LogByte, LogLen, Spaced, Splice;
    HeadsClearLog(g, a);
    SliceKept(flat, At(g, a), head, LogByte(g), LogLen(g));
  }

  lemma SectorHere(flat: seq<byte>, g: Geom, a: nat, head: seq<byte>, s: SbState)
    requires g.logAgbno < Pow2(g.agblklog) && g.sectsize <= |head| && At(g, a) + |head| <= |flat|
    requires SectorIs(head[..g.sectsize], g, s)
    ensures SectorAt(Splice(flat, At(g, a), head), g, a, s)
  {
    hide At, SectorIs, Splice, Pow2;
    SliceWritten(flat, At(g, a), head, g.sectsize);
  }

  /** A write clear of the log and of every group's headers keeps them. */
  lemma WrittenKept(
      flat: seq<byte>, g: Geom, states: seq<SbState>, log: seq<byte>, n: nat, at: nat, data: seq<byte>)
    requires g.logAgbno < Pow2(g.agblklog) && Spaced(g) && Written(flat, g, states, log, n)
    requires at + |data| <= |flat| && (at + |data| <= LogByte(g) || LogByte(g) + LogLen(g) <= at)
    requires forall i: nat {:trigger At(g, i)} :: i < n ==> At(g, i) + HeadBytes(g) <= at || at + |data| <= At(g, i)
    ensures Written(Splice(flat, at, data), g, states, log, n)
  {
    hide At, HeadBytes, LogByte, LogLen, Spaced, SectorIs, Splice, Pow2;
    SectorInHead(g);
    SliceKept(flat, at, data, LogByte(g), LogLen(g));
    forall i | 0 <= i < n
      ensures SectorAt(Splice(flat, at, data), g, i, states[i])
    {
      assert SectorAt(flat, g, i, states[i]);
      SliceKept(flat, at, data, At(g, i), g.sectsize);
    }
  }

  function ChunkAt(g: Geom): nat {
    g.RootChunkAgbno() * g.blocksize
  }

  function ChunkLen(g: Geom): nat {
    g.ChunkBlocks() * g.blocksize
  }

  /** The root inode chunk is past group 0's headers and before the next group. */
  lemma ChunkIsClear(g: Geom, a: nat)
    requires Spaced(g)
    ensures At(g, a) + HeadBytes(g) <= ChunkAt(g) || ChunkAt(g) + ChunkLen(g) <= At(g, a)
    ensures ChunkAt(g) + ChunkLen(g) <= LogByte(g) && ChunkAt(g) + ChunkLen(g) <= g.dblocks * g.blocksize
  {
    hide Geometry.Geometry.RootChunkAgbno, Geometry.Geometry.ChunkBlocks, Geometry.Geometry.PreallocBlocks;
    var chunk, n := g.RootChunkAgbno(), g.ChunkBlocks();
    if a == 0 {
      MulGrows(g.PreallocBlocks(), chunk, g.blocksize);
    } else {
      GroupEnds(0, a, g.agsize);
      InBytes(chunk, n, a * g.agsize, g.blocksize);
    }
    GroupEnds(0, g.logagno, g.agsize);
    InBytes(chunk, n, g.logagno * g.agsize + g.logAgbno, g.blocksize);
    LogFits(g);
  }

  /** Whole blocks of the device, and where the last of them that are zeroed start. */
  function End(size: nat, bs: pos): nat {
    size / bs * bs
  }

  function Tail(size: nat, bs: pos): nat {
    Max(End(size, bs) - WHACK_SIZE, 0) / bs * bs
  }

  lemma EndsAreTaken(dev: MemDevice, g: Geom)
    requires Hosts(dev, g) && Supported(g.blocksize)
    ensures Tail(dev.size, g.blocksize) <= End(dev.size, g.blocksize)
    ensures dev.Check(0, Min(WHACK_SIZE, End(dev.size, g.blocksize))).Ok?
    ensures dev.Check(Tail(dev.size, g.blocksize), End(dev.size, g.blocksize) - Tail(dev.size, g.blocksize)).Ok?
  {
    hide Hosts, Supported;
    var blocks, whack := dev.size / g.blocksize, WHACK_SIZE / g.blocksize;
    WholeWhack(g.blocksize);
    WholeEnd(dev.size, g.blocksize);
    WhackInBlocks(blocks, whack, g.blocksize);
    var first := Max(blocks - whack, 0);
    MulGrows(first, blocks, g.blocksize);
    MulMod(first, g.blocksize);
    HostsBlocks(dev, g, 0, Min(whack, blocks));
    HostsBlocks(dev, g, first * g.blocksize, blocks - first);
  }

  /** The first and last 128 KiB of the whole blocks are zero, and the rest is as it was. */
  ghost predicate EndsZeroed(was: seq<byte>, now: seq<byte>, bs: pos) {
    |was| == |now| && forall j :: 0 <= j < |was| ==>
      now[j] == if ZeroedByte(|was|, bs, j) then 0 else was[j]
  }

  predicate ZeroedByte(size: nat, bs: pos, j: nat) {
    var end := size / bs * bs;
    j < end && (j < 0x2_0000 || end <= j + 0x2_0000)
  }

  lemma ZeroedAtEnds(was: seq<byte>, now: seq<byte>, bs: pos)
    requires Supported(bs) && |was| == |now| && Tail(|was|, bs) <= End(|was|, bs) <= |was|
    requires forall j :: 0 <= j < |was| ==>
               var ended := j < Min(WHACK_SIZE, End(|was|, bs)) || Tail(|was|, bs) <= j < End(|was|, bs);
               now[j] == if ended then 0 else was[j]
    ensures EndsZeroed(was, now, bs)
  {
    TailIs(|was|, bs);
    hide Tail, Supported;
  }

  /** The last blocks that are zeroed start 128 KiB before the end of the last block. */
  lemma TailIs(size: nat, bs: pos)
    requires Supported(bs)
    ensures Tail(size, bs) == Max(End(size, bs) - 0x2_0000, 0)
  {
    WholeWhack(bs);
    WhackInBlocks(size / bs, WHACK_SIZE / bs, bs);
    hide Supported;
    MulOrder(WHACK_SIZE / bs, size / bs, bs);
    var first := size / bs - WHACK_SIZE / bs;
    assert first * bs == size / bs * bs - WHACK_SIZE / bs * bs;
  }

  /** Old signatures at both ends of the device, whole blocks only. */
  method ZeroEnds(dev: MemDevice, g: Geom) returns (r: Result<()>)
    requires dev.Valid() && Hosts(dev, g) && Supported(g.blocksize)
    modifies dev
    ensures dev.Valid() && r.Ok? && EndsZeroed(old(dev.Contents()), dev.Contents(), g.blocksize)
  {
    hide Hosts, Supported, Admit, End, Tail, EndsZeroed;
    ghost var was := dev.Contents();
    EndsAreTaken(dev, g);
    var end, tail := End(dev.size, g.blocksize), Tail(dev.size, g.blocksize);
    r := dev.WriteZeroes(0, Min(WHACK_SIZE, end));
    r := dev.WriteZeroes(tail, end - tail);
    ZeroedAtEnds(was, dev.Contents(), g.blocksize);
  }

  lemma WholeWhack(bs: nat)
    requires Supported(bs)
    ensures WHACK_SIZE / bs * bs == WHACK_SIZE
  {
  }

  lemma WholeEnd(size: nat, bs: pos)
    ensures size / bs * bs <= size
  {
  }

  /** Both ends are whole blocks, also of a device shorter than either. */
  lemma WhackInBlocks(blocks: nat, whack: nat, bs: pos)
    requires whack * bs == WHACK_SIZE
    ensures Min(whack, blocks) * bs == Min(WHACK_SIZE, blocks * bs)
    ensures var first := Max(blocks - whack, 0);
            && Max(blocks * bs - WHACK_SIZE, 0) / bs * bs == first * bs
            && (blocks - first) * bs == blocks * bs - first * bs
  {
    MulOrder(whack, blocks, bs);
    MulOrder(blocks, whack, bs);
    var first := Max(blocks - whack, 0);
    if blocks > whack {
      assert (blocks - whack) * bs == blocks * bs - WHACK_SIZE;
    }
    DivModUnique(first * bs, bs, first, 0);
    assert (blocks - first) * bs == blocks * bs - first * bs;
  }

  /** The log is as a format leaves it. */
  ghost predicate FreshLog(log: seq<byte>, g: Geom, uuid: seq<byte>) {
    |log| == LogLen(g) && LogClear.ClearedBytes(log, LogBbs(g), uuid, LogUnit(g), 1)
  }

  /** The stripe unit of the log's first record. */
  function LogUnit(g: Geom): nat {
    LogRecord.ClearSunit(LogsUnit(g), if g.sectsize > 512 then g.sectsize else 0)
  }

  lemma LogInBlocks(g: Geom)
    requires Supported(g.blocksize)
    ensures LogLen(g) == LogBbs(g) * LogFinder.BBSIZE && LogLen(g) % g.blocksize == 0 && LogByte(g) % g.blocksize == 0
  {
    var k := g.blocksize / LogFinder.BBSIZE;
    assert g.blocksize == k * LogFinder.BBSIZE;
    assert g.logblocks * k * LogFinder.BBSIZE == g.logblocks * g.blocksize;
    MulMod(g.logblocks, g.blocksize);
    MulMod(g.logagno * g.agsize + g.logAgbno, g.blocksize);
  }

  /** The log, zeroed but for its first record. */
  method WriteLog(dev: MemDevice, g: Geom, uuid: seq<byte>) returns (r: Result<()>, ghost log: seq<byte>)
    requires dev.Valid() && Hosts(dev, g) && Spaced(g) && Supported(g.blocksize) && |uuid| == 16
    requires LogFinder.TOTAL_REC_BBS <= LogBbs(g) < TWO_32
    modifies dev
    ensures dev.Valid() && r.Ok? && FreshLog(log, g, uuid)
    ensures LogByte(g) + LogLen(g) <= dev.size && dev.Contents()[LogByte(g)..LogByte(g) + LogLen(g)] == log
    ensures dev.Contents() == Splice(old(dev.Contents()), LogByte(g), log)
  {
    hide LogByte, LogBbs, LogClear.ClearedBytes, Splice, Spaced;
    LogInBlocks(g);
    LogFits(g);
    LogHasBlock(g);
    HostsBlocks(dev, g, LogByte(g), g.logblocks);
    HostsBlocks(dev, g, LogByte(g), 1);
    r, log := LogClear.FormatLog(dev, LogByte(g), LogBbs(g), g.blocksize, LogUnit(g), uuid);
    LogClear.ClearedLength(log, LogBbs(g), uuid, LogUnit(g), 1);
    ghost var now := dev.Contents();
    assert now[LogByte(g)..LogByte(g) + LogLen(g)] == log;
  }

  lemma LogHasBlock(g: Geom)
    requires Supported(g.blocksize) && LogFinder.TOTAL_REC_BBS <= LogBbs(g)
    ensures g.logblocks >= 1
  {
  }

  /** The groups' superblocks before the format is marked finished. */
  function Unfinished(states: seq<SbState>): (r: seq<SbState>)
    requires states != []
    ensures |r| == |states| && r[0].inprogress && forall i :: 1 <= i < |r| ==> r[i] == states[i]
  {
    states[0 := SbState(states[0].uuid, states[0].volume, states[0].imaxpct, states[0].rootino, states[0].rbmino,
                        states[0].rsumino, states[0].icount, states[0].ifree, states[0].fdblocks, true)]
  }

  /** The bytes a format writes beside superblocks and log: any of the right size. */
  datatype Rest = Rest(
    /** Each group's headers and roots after its superblock. */
    heads: seq<seq<byte>>,
    /** The root inode chunk. */
    chunk: seq<byte>,
    /** Group 0's header blocks after its superblock, once finished. */
    finished: seq<byte>)

  predicate CanWrite(g: Geom, states: seq<SbState>, rest: Rest) {
    && |states| == |rest.heads| == g.agcount && (forall a :: 0 <= a < g.agcount ==> Encodable(g, states[a]))
    && (forall a :: 0 <= a < g.agcount ==> g.sectsize + |rest.heads[a]| == HeadBytes(g))
    && |rest.chunk| == ChunkLen(g) && g.sectsize + |rest.finished| == g.HeaderBlocks() * g.blocksize
  }

  lemma UnfinishedCanWrite(g: Geom, states: seq<SbState>, rest: Rest)
    requires CanWrite(g, states, rest)
    ensures CanWrite(g, Unfinished(states), rest)
  {
    hide HeadBytes, Compute.Shaped, Compute.PowerOfTwo;
    assert Encodable(g, states[0]);
  }

  // ---------------------------------------------------------------------------------------
  // Every byte.

  predicate InHead(g: Geom, a: nat, j: nat) {
    At(g, a) <= j < At(g, a) + HeadBytes(g)
  }

  /** The first `n` groups' headers and roots are these, and the rest is as it was. */
  ghost predicate HeadsAre(was: seq<byte>, now: seq<byte>, g: Geom, heads: seq<seq<byte>>, n: nat) {
    && |was| == |now| && n <= |heads|
    && (forall i, j :: 0 <= i < n && 0 <= j < |now| && InHead(g, i, j) ==>
          j - At(g, i) < |heads[i]| && now[j] == heads[i][j - At(g, i)])
    && (forall j :: 0 <= j < |now| && (forall i: nat :: i < n ==> !InHead(g, i, j)) ==> now[j] == was[j])
  }

  lemma OneHead(g: Geom, a: nat, b: nat, j: nat)
    requires Spaced(g) && InHead(g, a, j) && InHead(g, b, j)
    ensures a == b
  {
    hide At, HeadBytes, Spaced;
    if a < b {
      HeadsApart(g, a, b);
    } else if b < a {
      HeadsApart(g, b, a);
    }
  }

  lemma NextHead(was: seq<byte>, now: seq<byte>, g: Geom, heads: seq<seq<byte>>, n: nat, head: seq<byte>)
    requires Spaced(g) && HeadsAre(was, now, g, heads, n) && |heads| == n && |head| == HeadBytes(g)
    requires At(g, n) + |head| <= |now|
    ensures HeadsAre(was, Splice(now, At(g, n), head), g, heads + [head], n + 1)
  {
    hide At, HeadBytes, Spaced;
    var next, all := Splice(now, At(g, n), head), heads + [head];
    forall i, j | 0 <= i < n + 1 && 0 <= j < |next| && InHead(g, i, j)
      ensures j - At(g, i) < |all[i]| && next[j] == all[i][j - At(g, i)]
    {
      if i < n && InHead(g, n, j) {
        OneHead(g, i, n, j);
      }
    }
    forall j | 0 <= j < |next| && (forall i: nat :: i < n + 1 ==> !InHead(g, i, j))
      ensures next[j] == was[j]
    {
      assert !InHead(g, n, j);
    }
  }

  /** A group's superblock, and what is written after it. */
  ghost predicate HeadIs(head: seq<byte>, g: Geom, s: SbState, rest: seq<byte>)
    requires g.logAgbno < Pow2(g.agblklog)
  {
    g.sectsize <= |head| && SectorIs(head[..g.sectsize], g, s) && head[g.sectsize..] == rest
  }

  /** Every group's headers and roots. */
  method WriteGroups(dev: MemDevice, g: Geom, states: seq<SbState>, rest: Rest, ghost log: seq<byte>)
      returns (ghost heads: seq<seq<byte>>)
    requires dev.Valid() && Hosts(dev, g) && Spaced(g) && CanWrite(g, states, rest)
    requires g.logAgbno < Pow2(g.agblklog) && Written(dev.Contents(), g, states, log, 0)
    modifies dev
    ensures dev.Valid() && Written(dev.Contents(), g, states, log, g.agcount)
    ensures |heads| == g.agcount && HeadsAre(old(dev.Contents()), dev.Contents(), g, heads, g.agcount)
    ensures forall a :: 0 <= a < g.agcount ==> HeadIs(heads[a], g, states[a], rest.heads[a])
  {
    hide At, LogByte, LogLen, Hosts, Pow2, Written, SectorIs, Encodable, Splice, HeadsAre;
    ghost var first := dev.Contents();
    heads := [];
    NoHeads(first, g);
    for a := 0 to g.agcount
      invariant dev.Valid() && Written(dev.Contents(), g, states, log, a)
      invariant |heads| == a && HeadsAre(first, dev.Contents(), g, heads, a)
      invariant forall i :: 0 <= i < a ==> HeadIs(heads[i], g, states[i], rest.heads[i])
    {
      ghost var was := dev.Contents();
      SectorInHead(g);
      var _, head := WriteHead(dev, g, a, g.PreallocBlocks(), states[a], rest.heads[a]);
      WrittenOneMore(was, g, states, states, log, a, a, head);
      NextHead(first, was, g, heads, a, head);
      heads := heads + [head];
    }
  }

  lemma NoHeads(flat: seq<byte>, g: Geom)
    ensures HeadsAre(flat, flat, g, [], 0)
  {
  }

  /** Mark the filesystem finished: group 0's header blocks again. */
  method Finish(dev: MemDevice, g: Geom, states: seq<SbState>, rest: Rest, ghost log: seq<byte>)
      returns (ghost head: seq<byte>)
    requires dev.Valid() && Hosts(dev, g) && Spaced(g) && CanWrite(g, states, rest)
    requires g.logAgbno < Pow2(g.agblklog) && Written(dev.Contents(), g, Unfinished(states), log, g.agcount)
    modifies dev
    ensures dev.Valid() && Written(dev.Contents(), g, states, log, g.agcount)
    ensures |head| == g.HeaderBlocks() * g.blocksize <= dev.size && HeadIs(head, g, states[0], rest.finished)
    ensures dev.Contents() == Splice(old(dev.Contents()), 0, head)
  {
    hide At, LogByte, LogLen, Hosts, Pow2, Written, SectorIs, Encodable, Splice;
    ghost var was := dev.Contents();
    SectorInHead(g);
    StartsAtZero(g);
    var _, h := WriteHead(dev, g, 0, g.HeaderBlocks(), states[0], rest.finished);
    head := h;
    WrittenOneMore(was, g, Unfinished(states), states, log, g.agcount, 0, head);
  }

  lemma StartsAtZero(g: Geom)
    ensures At(g, 0) == 0
  {
  }

  /** The root inode chunk. */
  method WriteChunk(dev: MemDevice, g: Geom, ghost states: seq<SbState>, rest: Rest, ghost log: seq<byte>)
    requires dev.Valid() && Hosts(dev, g) && Spaced(g) && |rest.chunk| == ChunkLen(g)
    requires g.logAgbno < Pow2(g.agblklog) && Written(dev.Contents(), g, states, log, g.agcount)
    modifies dev
    ensures dev.Valid() && Written(dev.Contents(), g, states, log, g.agcount)
    ensures ChunkAt(g) + ChunkLen(g) <= dev.size
    ensures dev.Contents() == Splice(old(dev.Contents()), ChunkAt(g), rest.chunk)
  {
    hide At, HeadBytes, LogByte, LogLen, Pow2, Written, Splice, Spaced;
    ghost var was := dev.Contents();
    MulMod(g.RootChunkAgbno(), g.blocksize);
    ChunkIsClear(g, 0);
    HostsBlocks(dev, g, ChunkAt(g), g.ChunkBlocks());
    var _ := dev.WriteAt(ChunkAt(g), rest.chunk);
    forall i: nat | i < g.agcount
      ensures At(g, i) + HeadBytes(g) <= ChunkAt(g) || ChunkAt(g) + ChunkLen(g) <= At(g, i)
    {
      ChunkIsClear(g, i);
    }
    WrittenKept(was, g, states, log, g.agcount, ChunkAt(g), rest.chunk);
  }

  /**
   What a format leaves of `was`: group 0's finished header blocks, every group's headers and roots, the root
   chunk, the log, zeroes at the ends of the device, and everything else as it was.
   */
  ghost predicate Imaged(
      was: seq<byte>, now: seq<byte>, g: Geom, rest: Rest, log: seq<byte>, heads: seq<seq<byte>>, head: seq<byte>)
    requires |log| == LogLen(g) && |rest.chunk| == ChunkLen(g)
  {
    && |was| == |now| && |heads| == g.agcount
    && (forall i, j :: |head| <= j < |now| && 0 <= i < g.agcount && InHead(g, i, j) ==>
          j - At(g, i) < |heads[i]| && now[j] == heads[i][j - At(g, i)])
    && forall j :: 0 <= j < |now| ==>
         if j < |head| then now[j] == head[j]
         else if exists i: nat :: i < g.agcount && InHead(g, i, j) then true
         else
           now[j] ==
           if ChunkAt(g) <= j < ChunkAt(g) + ChunkLen(g) then rest.chunk[j - ChunkAt(g)]
           else if LogByte(g) <= j < LogByte(g) + LogLen(g) then log[j - LogByte(g)]
           else if ZeroedByte(|was|, g.blocksize, j) then 0
           else was[j]
  }

  lemma ImageIs(
      was: seq<byte>, ended: seq<byte>, logged: seq<byte>, headed: seq<byte>, chunked: seq<byte>, now: seq<byte>,
      g: Geom, rest: Rest, log: seq<byte>, heads: seq<seq<byte>>, head: seq<byte>)
    requires Spaced(g) && |log| == LogLen(g) && |rest.chunk| == ChunkLen(g) && |heads| == g.agcount
    requires EndsZeroed(was, ended, g.blocksize)
    requires LogByte(g) + LogLen(g) <= |was| && logged == Splice(ended, LogByte(g), log)
    requires HeadsAre(logged, headed, g, heads, g.agcount)
    requires ChunkAt(g) + ChunkLen(g) <= |was| && chunked == Splice(headed, ChunkAt(g), rest.chunk)
    requires |head| <= |was| && now == Splice(chunked, 0, head)
    ensures Imaged(was, now, g, rest, log, heads, head)
  {
    hide At, HeadBytes, LogByte, LogLen, Spaced, ChunkAt, ChunkLen, ZeroedByte, Splice, HeadsAre, EndsZeroed;
    SameSizes(was, ended, logged, headed, g, heads);
    forall i, j | |head| <= j < |now| && 0 <= i < g.agcount && InHead(g, i, j)
      ensures j - At(g, i) < |heads[i]| && now[j] == heads[i][j - At(g, i)]
    {
      ChunkIsClear(g, i);
      HeadByte(logged, headed, g, heads, i, j);
    }
    forall j | |head| <= j < |now| && !(exists i: nat :: i < g.agcount && InHead(g, i, j))
      ensures headed[j] == logged[j]
      ensures ended[j] == if ZeroedByte(|was|, g.blocksize, j) then 0 else was[j]
    {
      OtherByte(logged, headed, g, heads, j);
      EndedByte(was, ended, g.blocksize, j);
    }
  }

  lemma SameSizes(
      was: seq<byte>, ended: seq<byte>, logged: seq<byte>, headed: seq<byte>, g: Geom, heads: seq<seq<byte>>)
    requires EndsZeroed(was, ended, g.blocksize) && HeadsAre(logged, headed, g, heads, g.agcount)
    ensures |was| == |ended| && |logged| == |headed|
  {
  }

  lemma HeadByte(was: seq<byte>, now: seq<byte>, g: Geom, heads: seq<seq<byte>>, i: nat, j: nat)
    requires HeadsAre(was, now, g, heads, g.agcount) && i < g.agcount && j < |now| && InHead(g, i, j)
    ensures i < |heads| && j - At(g, i) < |heads[i]| && now[j] == heads[i][j - At(g, i)]
  {
    hide InHead, At;
  }

  lemma OtherByte(was: seq<byte>, now: seq<byte>, g: Geom, heads: seq<seq<byte>>, j: nat)
    requires HeadsAre(was, now, g, heads, g.agcount) && j < |now|
    requires !(exists i: nat :: i < g.agcount && InHead(g, i, j))
    ensures |was| == |now| && now[j] == was[j]
  {
    hide InHead, At;
  }

  lemma EndedByte(was: seq<byte>, now: seq<byte>, bs: pos, j: nat)
    requires EndsZeroed(was, now, bs) && j < |was|
    ensures now[j] == if ZeroedByte(|was|, bs, j) then 0 else was[j]
  {
    hide ZeroedByte;
  }

  /**
   A whole format, on any device that takes whole blocks: the ends and the log zeroed, the log's first
   record, every group's headers and roots, the root chunk, and group 0's header blocks again, now
   finished. It succeeds, leaves every superblock and the log as they were meant, and every byte of the
   device what was last meant for it.
   */
  method Format(dev: MemDevice, g: Geom, states: seq<SbState>, rest: Rest, uuid: seq<byte>)
      returns (r: Result<()>, ghost log: seq<byte>, ghost heads: seq<seq<byte>>, ghost head: seq<byte>)
    requires dev.Valid() && Hosts(dev, g) && Spaced(g) && Supported(g.blocksize) && |uuid| == 16
    requires LogFinder.TOTAL_REC_BBS <= LogBbs(g) < TWO_32 && CanWrite(g, states, rest)
    requires g.logAgbno < Pow2(g.agblklog)
    modifies dev
    ensures dev.Valid() && r.Ok? && FreshLog(log, g, uuid)
    ensures Written(dev.Contents(), g, states, log, g.agcount)
    ensures |log| == LogLen(g) && |rest.chunk| == ChunkLen(g)
    ensures Imaged(old(dev.Contents()), dev.Contents(), g, rest, log, heads, head)
    ensures |heads| == |states| && forall a :: 0 <= a < g.agcount ==>
              HeadIs(heads[a], g, Unfinished(states)[a], rest.heads[a])
    ensures |head| == g.HeaderBlocks() * g.blocksize && HeadIs(head, g, states[0], rest.finished)
  {
    hide LogByte, LogLen, LogBbs, Spaced, Hosts, Pow2, SectorAt, LogClear.ClearedBytes, CanWrite, Imaged, Splice;
    hide EndsZeroed, HeadsAre, HeadIs, ChunkAt, ChunkLen, Written;
    WritesSome(g, states, rest);
    UnfinishedCanWrite(g, states, rest);
    ghost var was := dev.Contents();
    r := ZeroEnds(dev, g);
    ghost var ended := dev.Contents();
    r, log := WriteLog(dev, g, uuid);
    ghost var logged := dev.Contents();
    NoneWritten(logged, g, Unfinished(states), log, uuid);
    heads := WriteGroups(dev, g, Unfinished(states), rest, log);
    ghost var headed := dev.Contents();
    WriteChunk(dev, g, Unfinished(states), rest, log);
    ghost var chunked := dev.Contents();
    head := Finish(dev, g, states, rest, log);
    ImageIs(was, ended, logged, headed, chunked, dev.Contents(), g, rest, log, heads, head);
  }

  lemma NoneWritten(flat: seq<byte>, g: Geom, states: seq<SbState>, log: seq<byte>, uuid: seq<byte>)
    requires g.logAgbno < Pow2(g.agblklog) && FreshLog(log, g, uuid) && LogByte(g) + LogLen(g) <= |flat|
    requires flat[LogByte(g)..LogByte(g) + LogLen(g)] == log
    ensures |log| == LogLen(g) && Written(flat, g, states, log, 0)
  {
    hide LogByte, LogLen, Pow2, LogClear.ClearedBytes;
  }

  lemma WritesSome(g: Geom, states: seq<SbState>, rest: Rest)
    requires CanWrite(g, states, rest)
    ensures |states| == g.agcount && |rest.chunk| == ChunkLen(g)
  {
  }
}
