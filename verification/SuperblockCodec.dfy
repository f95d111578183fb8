/** Encoding a geometry in a superblock, and reading it back. */
module SuperblockCodec {
  import opened Prelude
  import opened Bytes
  import opened Geometry
  import opened AgGeometry
  import opened Compute
  import Checksum
  import LogFinder

  const SB_MAGIC: nat := 0x5846_5342
  const SB_END: nat := 264
  const CRC_OFF: nat := 224

  // ---------------------------------------------------------------------------------------
  // Fields.

  /** A big-endian number of 1, 2, 4 or 8 bytes, or a string of bytes. */
  datatype Field = Num(off: nat, width: nat, value: nat) | Raw(off: nat, data: seq<byte>) {
    function End(): nat {
      off + if Num? then width else |data|
    }

    predicate Fits() {
      match this
      case Num(_, width, value) =>
        || (width == 1 && value < 0x100) || (width == 2 && value < TWO_16)
        || (width == 4 && value < TWO_32) || (width == 8 && value < TWO_64)
      case Raw(_, _) => true
    }
  }

  predicate Holds(b: seq<byte>, f: Field) {
    && f.Fits() && f.End() <= |b|
    && match f
       case Num(off, width, value) =>
         value == (if width == 1 then b[off] as nat else if width == 2 then Be16(b, off)
                   else if width == 4 then Be32(b, off) else Be64(b, off))
       case Raw(off, data) => b[off..off + |data|] == data
  }

  predicate HoldsAll(b: seq<byte>, fs: seq<Field>) {
    forall i :: 0 <= i < |fs| ==> Holds(b, fs[i])
  }

  /** No field over another, each inside `[lo, hi)`. */
  predicate Laid(fs: seq<Field>, lo: nat, hi: nat) {
    && (forall i :: 0 <= i < |fs| ==> lo <= fs[i].off && fs[i].End() <= hi && fs[i].Fits())
    && (forall i, j :: 0 <= i < j < |fs| ==> fs[i].End() <= fs[j].off)
  }

  lemma LaidConcat(a: seq<Field>, b: seq<Field>, lo: nat, mid: nat, hi: nat)
    requires Laid(a, lo, mid) && Laid(b, mid, hi) && lo <= mid <= hi
    ensures Laid(a + b, lo, hi)
  {
  }

  /** Equal bytes hold equal fields. */
  lemma HoldsKept(a: seq<byte>, b: seq<byte>, f: Field)
    requires Holds(a, f) && |a| == |b| && forall i :: f.off <= i < f.End() ==> a[i] == b[i]
    ensures Holds(b, f)
  {
    if f.Raw? {
      assert a[f.off..f.End()] == b[f.off..f.End()];
    }
  }

  method PutField(a: array<byte>, f: Field)
    requires f.Fits() && f.End() <= a.Length
    modifies a
    ensures Holds(a[..], f)
    ensures forall i :: 0 <= i < a.Length && !(f.off <= i < f.End()) ==> a[i] == old(a[i])
  {
    match f
    case Num(off, width, value) =>
      if width == 1 {
        a[off] := value;
      } else if width == 2 {
        Put16(a, off, value);
      } else if width == 4 {
        Put32(a, off, value);
      } else {
        Put64(a, off, value);
      }
    case Raw(off, data) =>
      for i := 0 to |data|
        invariant a[off..off + i] == data[..i]
        invariant forall k :: 0 <= k < a.Length && !(off <= k < f.End()) ==> a[k] == old(a[k])
      {
        a[off + i] := data[i];
      }
      assert a[..][off..off + |data|] == data;
  }

  method PutFields(a: array<byte>, fs: seq<Field>)
    requires Laid(fs, 0, a.Length)
    modifies a
    ensures HoldsAll(a[..], fs)
  {
    hide Holds;
    for i := 0 to |fs|
      invariant forall j :: 0 <= j < i ==> Holds(a[..], fs[j])
    {
      ghost var before := a[..];
      PutField(a, fs[i]);
      forall j | 0 <= j < i
        ensures Holds(a[..], fs[j])
      {
        HoldsKept(before, a[..], fs[j]);
      }
    }
  }

  // ---------------------------------------------------------------------------------------
  // Numbers of blocks and inodes.

  /** A group's number above a block's: a bitwise or of parts that share no bits is their sum. */
  function Fsb(agblklog: nat, agno: nat, agbno: nat): nat
    requires agbno < Pow2(agblklog)
  {
    agno * Pow2(agblklog) + agbno
  }

  /** Group, block and slot in one inode number. */
  function Ino(agblklog: nat, inopblog: nat, agno: nat, agbno: nat, slot: nat): nat
    requires agbno < Pow2(agblklog) && slot < Pow2(inopblog)
  {
    agno * Pow2(agblklog + inopblog) + (agbno * Pow2(inopblog) + slot)
  }

  /** A block number decodes to its group and block. */
  lemma FsbDecodes(agblklog: nat, agno: nat, agbno: nat)
    requires agbno < Pow2(agblklog)
    ensures Fsb(agblklog, agno, agbno) / Pow2(agblklog) == agno
    ensures Fsb(agblklog, agno, agbno) % Pow2(agblklog) == agbno
  {
    DivModUnique(Fsb(agblklog, agno, agbno), Pow2(agblklog), agno, agbno);
  }

  lemma {:induction false} Pow2Adds(a: nat, b: nat)
    ensures Pow2(a + b) == Pow2(a) * Pow2(b)
  {
    if a > 0 {
      Pow2Adds(a - 1, b);
      var x, y := Pow2(a - 1), Pow2(b);
      assert Pow2(a) == 2 * x && Pow2(a + b) == 2 * Pow2(a - 1 + b);
      hide Pow2;
      assert 2 * x * y == 2 * (x * y);
    }
  }

  lemma Regroup(x: nat, a: nat, y: nat, i: nat)
    ensures (x * a + y) * i == x * (a * i) + y * i
  {
    assert (x * a + y) * i == x * a * i + y * i;
  }

  /** An inode number is its block's number and the slot, so it decodes to all three parts. */
  lemma InoDecodes(agblklog: nat, inopblog: nat, agno: nat, agbno: nat, slot: nat)
    requires agbno < Pow2(agblklog) && slot < Pow2(inopblog)
    ensures var ino := Ino(agblklog, inopblog, agno, agbno, slot);
            ino / Pow2(inopblog) == Fsb(agblklog, agno, agbno) && ino % Pow2(inopblog) == slot
  {
    var a, i := Pow2(agblklog), Pow2(inopblog);
    Pow2Adds(agblklog, inopblog);
    Regroup(agno, a, agbno, i);
    hide Pow2;
    DivModUnique(Ino(agblklog, inopblog, agno, agbno, slot), i, agno * a + agbno, slot);
  }

  /** Different inodes and blocks have different numbers. */
  lemma InoInjective(
      agblklog: nat, inopblog: nat, agno: nat, agbno: nat, slot: nat, agno': nat, agbno': nat, slot': nat)
    requires agbno < Pow2(agblklog) && slot < Pow2(inopblog) && agbno' < Pow2(agblklog) && slot' < Pow2(inopblog)
    requires Ino(agblklog, inopblog, agno, agbno, slot) == Ino(agblklog, inopblog, agno', agbno', slot')
    ensures agno == agno' && agbno == agbno' && slot == slot'
  {
    hide Ino;
    InoDecodes(agblklog, inopblog, agno, agbno, slot);
    InoDecodes(agblklog, inopblog, agno', agbno', slot');
    FsbDecodes(agblklog, agno, agbno);
    FsbDecodes(agblklog, agno', agbno');
  }

  // ---------------------------------------------------------------------------------------
  // Encoding.

  datatype SbState = SbState(
    uuid: seq<byte>, volume: seq<byte>, imaxpct: nat, rootino: nat, rbmino: nat, rsumino: nat,
    icount: nat, ifree: nat, fdblocks: nat, inprogress: bool)
  {
    predicate Fits() {
      && |uuid| == 16 && |volume| == 12 && imaxpct < 0x100
      && rootino < TWO_64 && rbmino < TWO_64 && rsumino < TWO_64
      && icount < TWO_64 && ifree < TWO_64 && fdblocks < TWO_64
    }
  }

  const RO_FINOBT: nat := 1
  const RO_RMAPBT: nat := 2
  const RO_REFLINK: nat := 4
  const RO_INOBTCNT: nat := 8
  const IN_FTYPE: nat := 1
  const IN_SPINODES: nat := 2
  const IN_BIGTIME: nat := 8
  const IN_NREXT64: nat := 0x20
  const FEATURES2: nat := 0x18a

  /** Flag words, their bits all different: the sum is the bitwise or. */
  function VersionNum(g: Geometry): nat {
    5 + 0x20 + 0x80 + 0x400 + 0x1000 + 0x2000 + 0x8000 + if g.sectsize > 512 then 0x800 else 0
  }

  function RoCompat(f: Features): nat {
    Flag(f.finobt) * RO_FINOBT + Flag(f.rmapbt) * RO_RMAPBT + Flag(f.reflink) * RO_REFLINK
    + Flag(f.inobtcount) * RO_INOBTCNT
  }

  function Incompat(f: Features): nat {
    IN_FTYPE + Flag(f.bigtime) * IN_BIGTIME + Flag(f.sparse) * IN_SPINODES + Flag(f.nrext64) * IN_NREXT64
  }

  predicate HasBit(word: nat, bit: pos) {
    word / bit % 2 == 1
  }

  lemma FeatureBits(f: Features)
    ensures var ro := RoCompat(f);
            && (HasBit(ro, RO_FINOBT) <==> f.finobt) && (HasBit(ro, RO_RMAPBT) <==> f.rmapbt)
            && (HasBit(ro, RO_REFLINK) <==> f.reflink) && (HasBit(ro, RO_INOBTCNT) <==> f.inobtcount)
    ensures var inc := Incompat(f);
            && (HasBit(inc, IN_BIGTIME) <==> f.bigtime) && (HasBit(inc, IN_SPINODES) <==> f.sparse)
            && (HasBit(inc, IN_NREXT64) <==> f.nrext64)
  {
    var a, b, c, d := Flag(f.finobt), Flag(f.rmapbt), Flag(f.reflink), Flag(f.inobtcount);
    assert RoCompat(f) == a + 2 * b + 4 * c + 8 * d;
  }

  function Log2(n: nat): nat {
    LogFrom(n, 0)
  }

  function LogStart(g: Geometry): nat
    requires g.logAgbno < Pow2(g.agblklog)
  {
    Fsb(g.agblklog, g.logagno, g.logAgbno)
  }

  function RextSize(g: Geometry): nat {
    if g.blocksize < 4096 then 4096 / g.blocksize else 1
  }

  function LogsUnit(g: Geometry): nat {
    if g.sectsize > 512 then g.blocksize else 1
  }

  function InoPerBlock(g: Geometry): nat {
    g.blocksize / g.inodesize
  }

  function Names(g: Geometry, s: SbState): seq<Field>
    requires g.logAgbno < Pow2(g.agblklog)
  {
    [Num(0, 4, SB_MAGIC), Num(4, 4, g.blocksize), Num(8, 8, g.dblocks), Num(16, 8, 0), Num(24, 8, 0),
     Raw(32, s.uuid), Num(48, 8, LogStart(g)), Num(56, 8, s.rootino), Num(64, 8, s.rbmino), Num(72, 8, s.rsumino)]
  }

  function SizeFields(g: Geometry, s: SbState): seq<Field> {
    [Num(80, 4, RextSize(g)), Num(84, 4, g.agsize), Num(88, 4, g.agcount), Num(92, 4, 0), Num(96, 4, g.logblocks),
     Num(100, 2, VersionNum(g)), Num(102, 2, g.sectsize), Num(104, 2, g.inodesize), Num(106, 2, InoPerBlock(g)),
     Raw(108, s.volume)]
  }

  function LogFields(g: Geometry, s: SbState): seq<Field> {
    [Num(120, 1, Log2(g.blocksize)), Num(121, 1, Log2(g.sectsize)), Num(122, 1, Log2(g.inodesize)),
     Num(123, 1, Log2(InoPerBlock(g))), Num(124, 1, g.agblklog), Num(125, 1, 0), Num(126, 1, Flag(s.inprogress)),
     Num(127, 1, s.imaxpct)]
  }

  function Counters(g: Geometry, s: SbState): seq<Field> {
    [Num(128, 8, s.icount), Num(136, 8, s.ifree), Num(144, 8, s.fdblocks), Num(152, 8, 0), Num(160, 8, 0),
     Num(168, 8, 0), Num(180, 4, g.InoAlignmt()), Num(184, 4, 0), Num(188, 4, 0),
     Num(192, 1, Max(12 - Log2(g.blocksize), 0))]
  }

  /** The log's sector size is left zero, as the sector starts, when it is the smallest. */
  function FeatureFields(g: Geometry): seq<Field> {
    [Num(193, 1, if g.sectsize > 512 then Log2(g.sectsize) else 0),
     Num(194, 2, if g.sectsize > 512 then g.sectsize else 0),
     Num(196, 4, LogsUnit(g)), Num(200, 4, FEATURES2), Num(204, 4, FEATURES2), Num(208, 4, 0),
     Num(212, 4, RoCompat(g.features)), Num(216, 4, Incompat(g.features)), Num(220, 4, 0),
     Num(228, 4, if g.features.sparse then g.ClusterAlign() else 0), Num(232, 8, 0), Num(240, 8, 0)]
  }

  // ---------------------------------------------------------------------------------------
  // The values fit their fields.

  lemma {:induction false} Pow2Grows(a: nat, b: nat)
    requires a < b
    ensures Pow2(a) < Pow2(b)
  {
    if a + 1 < b {
      Pow2Grows(a, b - 1);
    }
  }

  /** `log2_roundup` of a power of two is exact. */
  lemma LogOfPower(k: nat)
    ensures LogFrom(Pow2(k), 0) == k
  {
    hide Pow2, LogFrom;
    var r := LogFrom(Pow2(k), 0);
    if r < k {
      Pow2Grows(r, k);
    } else if r > k + 1 {
      Pow2Grows(k, r - 1);
    }
  }

  lemma {:induction false} PowerIs(n: nat) returns (k: nat)
    requires PowerOfTwo(n)
    ensures n == Pow2(k) && Log2(n) == k
  {
    if n == 1 {
      k := 0;
    } else {
      var j := PowerIs(n / 2);
      k := j + 1;
      assert Pow2(j + 1) == 2 * Pow2(j);
    }
    LogOfPower(k);
  }

  /** What a computed geometry's sizes and counts are at most. */
  predicate Encodable(g: Geometry, s: SbState) {
    && Shaped(g) && s.Fits() && g.dblocks < TWO_64 && g.dblocks <= g.agcount * g.agsize
    && PowerOfTwo(g.blocksize) && PowerOfTwo(g.sectsize) && PowerOfTwo(g.inodesize)
  }

  lemma LogSmall(n: nat)
    requires PowerOfTwo(n) && n <= 0x8000
    ensures Pow2(Log2(n)) == n && Log2(n) <= 15
  {
    var k := PowerIs(n);
    if k > 15 {
      Pow2Grows(15, k);
      FifteenBits();
    }
  }

  lemma FifteenBits()
    ensures Pow2(15) == 0x8000 && Pow2(30) == 0x4000_0000
  {
    assert Pow2(15) == 0x8000;
    Pow2Adds(15, 15);
  }

  /** The shift for block numbers is under 32, and groups and the log's place are within it. */
  lemma ShiftFits(g: Geometry)
    requires Shaped(g)
    ensures g.agblklog <= 30 && g.agsize <= Pow2(g.agblklog) <= 0x4000_0000 && g.logAgbno < g.agsize
  {
    LogSizes(g.blocksize);
    SmallPlaces(g);
    FifteenBits();
    hide AgMin, AgMax, Blocks, LogBlocks, Accepted, Pow2;
    if g.agblklog > 30 {
      if g.agblklog - 1 > 30 {
        Pow2Grows(30, g.agblklog - 1);
      }
    } else if g.agblklog < 30 {
      Pow2Grows(g.agblklog, 30);
    }
  }

  lemma InoPerBlockIs(bs: nat, inode: nat)
    requires Supported(bs) && inode in {512, 1024, 2048} && 2 * inode <= bs
    ensures PowerOfTwo(bs / inode) && 2 <= bs / inode <= 32 && bs / inode * inode == bs
  {
    TwoToThe(1);
    TwoToThe(2);
    TwoToThe(3);
    TwoToThe(4);
    TwoToThe(5);
    Powers();
    if inode == 512 {
    } else if inode == 1024 {
    }
  }

  function Fields(g: Geometry, s: SbState): seq<Field>
    requires g.logAgbno < Pow2(g.agblklog)
  {
    Names(g, s) + SizeFields(g, s) + LogFields(g, s) + Counters(g, s) + FeatureFields(g)
  }

  /** Everything encoded is small enough for its field. */
  predicate Bounded(g: Geometry, s: SbState) {
    && s.Fits() && g.logAgbno < Pow2(g.agblklog) && LogStart(g) < TWO_64
    && g.blocksize <= 0x4000 && g.sectsize <= 0x4000 && g.inodesize <= 0x4000 && InoPerBlock(g) <= 0x4000
    && g.dblocks < TWO_64 && g.agsize < TWO_32 && g.agcount < TWO_32 && g.logblocks < TWO_32
    && RextSize(g) < TWO_32 && LogsUnit(g) < TWO_32 && g.InoAlignmt() < TWO_32 && g.ClusterAlign() < TWO_32
    && Log2(g.blocksize) < 0x80 && Log2(g.sectsize) < 0x80 && Log2(g.inodesize) < 0x80
    && Log2(InoPerBlock(g)) < 0x80 && g.agblklog < 0x80
  }

  lemma SmallProduct(a: nat, p: nat, b: nat)
    requires a < TWO_32 && b < p <= 0x4000_0000
    ensures a * p + b < TWO_64
  {
    var rest: nat := 0x4000_0000 - p;
    assert a * rest >= 0;
    assert a * p + a * rest == a * 0x4000_0000;
  }

  lemma StartFits(g: Geometry)
    requires Shaped(g)
    ensures g.logAgbno < Pow2(g.agblklog) && LogStart(g) < TWO_64
  {
    ShiftFits(g);
    hide Pow2, AgMin, AgMax, Blocks, LogBlocks, Accepted, LogFrom;
    SmallProduct(g.logagno, Pow2(g.agblklog), g.logAgbno);
  }

  lemma LogsFit(g: Geometry, s: SbState)
    requires Encodable(g, s)
    ensures Log2(g.blocksize) < 0x80 && Log2(g.sectsize) < 0x80 && Log2(g.inodesize) < 0x80
    ensures InoPerBlock(g) <= 0x4000 && Log2(InoPerBlock(g)) < 0x80
  {
    InoPerBlockIs(g.blocksize, g.inodesize);
    hide PowerOfTwo, LogBlocks, Log2, AgMin, AgMax, Blocks;
    LogSmall(g.blocksize);
    LogSmall(g.sectsize);
    LogSmall(g.inodesize);
    LogSmall(InoPerBlock(g));
  }

  lemma BlocksFit(g: Geometry)
    requires Shaped(g)
    ensures g.agsize < TWO_32 && g.logblocks < TWO_32 && g.ClusterAlign() <= 16 && g.InoAlignmt() <= 32
    ensures g.blocksize <= 0x4000 && RextSize(g) <= 4 && g.agcount < TWO_32
  {
    LogSizes(g.blocksize);
    LogBlocksIs(g);
    ChunkOf(g.blocksize, g.inodesize);
    hide LogBlocks, LogFrom, AgMin, AgMax, Blocks;
  }

  lemma SizesInRange(g: Geometry, s: SbState)
    requires Encodable(g, s)
    ensures InRange(g.blocksize, 512, 0x1_0000) && Pow2(Log2(g.blocksize)) == g.blocksize
    ensures InRange(g.sectsize, 512, 0x8000) && g.sectsize <= g.blocksize && InRange(g.inodesize, 256, 2048)
    ensures SB_END <= g.sectsize
  {
    LogSmall(g.blocksize);
    hide Pow2, AgMin, AgMax, Blocks, LogBlocks, LogFrom, Log2, PowerOfTwo;
  }

  lemma EncodableIsBounded(g: Geometry, s: SbState)
    requires Encodable(g, s)
    ensures Bounded(g, s)
  {
    hide PowerOfTwo, Log2, Pow2, RextSize, InoPerBlock, LogStart, LogsUnit, Shaped;
    StartFits(g);
    ShiftFits(g);
    LogsFit(g, s);
    BlocksFit(g);
    SizesInRange(g, s);
    UnitFits(g);
  }

  lemma UnitFits(g: Geometry)
    requires g.blocksize <= 0x4000
    ensures LogsUnit(g) < TWO_32
  {
  }

  lemma NamesLaid(g: Geometry, s: SbState)
    requires Bounded(g, s)
    ensures Laid(Names(g, s), 0, 80)
  {
    hide Pow2, Log2, RextSize, InoPerBlock, LogStart;
  }

  lemma SizesLaid(g: Geometry, s: SbState)
    requires Bounded(g, s)
    ensures Laid(SizeFields(g, s), 80, 120)
  {
    hide Pow2, Log2, RextSize, InoPerBlock, LogStart;
  }

  lemma LogsLaid(g: Geometry, s: SbState)
    requires Bounded(g, s)
    ensures Laid(LogFields(g, s), 120, 128)
  {
    hide Pow2, Log2, RextSize, InoPerBlock, LogStart;
  }

  lemma CountersLaid(g: Geometry, s: SbState)
    requires Bounded(g, s)
    ensures Laid(Counters(g, s), 128, 193)
  {
    hide Pow2, Log2, RextSize, InoPerBlock, LogStart;
  }

  lemma FeaturesLaid(g: Geometry, s: SbState)
    requires Bounded(g, s)
    ensures Laid(FeatureFields(g), 193, SB_END)
  {
    hide Pow2, Log2, RextSize, InoPerBlock, LogStart;
  }

  lemma FieldsLaid(g: Geometry, s: SbState)
    requires Encodable(g, s)
    ensures g.logAgbno < Pow2(g.agblklog) && Laid(Fields(g, s), 0, SB_END)
  {
    EncodableIsBounded(g, s);
    NamesLaid(g, s);
    SizesLaid(g, s);
    LogsLaid(g, s);
    CountersLaid(g, s);
    FeaturesLaid(g, s);
    hide Names, SizeFields, LogFields, Counters, FeatureFields, Laid, Encodable, Pow2;
    LaidConcat(Names(g, s), SizeFields(g, s), 0, 80, 120);
    LaidConcat(Names(g, s) + SizeFields(g, s), LogFields(g, s), 0, 120, 128);
    LaidConcat(Names(g, s) + SizeFields(g, s) + LogFields(g, s), Counters(g, s), 0, 128, 193);
    LaidConcat(Names(g, s) + SizeFields(g, s) + LogFields(g, s) + Counters(g, s), FeatureFields(g), 0, 193, SB_END);
  }

  // ---------------------------------------------------------------------------------------
  // Reading it back.

  datatype Geo = Geo(
    blocksize: nat, blocklog: nat, sectsize: nat, agblocks: nat, agcount: nat, dblocks: nat, agblklog: nat,
    inodesize: nat, inopblog: nat, logstart: nat, logblocks: nat, logsectsize: nat, logsunit: nat,
    roCompat: nat, incompat: nat)
  {
    predicate Sane() {
      && InRange(blocksize, 512, 0x1_0000) && Pow2(blocklog) == blocksize
      && InRange(sectsize, 512, 0x8000) && sectsize <= blocksize
      && InRange(inodesize, 256, 2048)
      && agcount > 0 && agblocks > 0 && agblocks <= Pow2(agblklog) && agblklog < 32
      && dblocks <= agcount * agblocks
    }

    /** All but the incompat word, which a new UUID can change. */
    function Shape(): Geo {
      Geo(blocksize, blocklog, sectsize, agblocks, agcount, dblocks, agblklog, inodesize, inopblog, logstart,
          logblocks, logsectsize, logsunit, roCompat, 0)
    }

    function Byte(agno: nat, agbno: nat): int {
      (agno * agblocks + agbno) * Pow2(blocklog)
    }

    function AgLen(agno: nat): int {
      if agno == agcount - 1 then dblocks - agno * agblocks else agblocks
    }

    /** Where the log is, in bytes, and its length in basic blocks. */
    function LogExtent(): (nat, nat) {
      var agno, agbno := Quotient(logstart, Pow2(agblklog)), logstart % Pow2(agblklog);
      ByteExtent(agno * agblocks + agbno, logblocks, blocksize)
    }
  }

  /** So many blocks in bytes, and in basic blocks. */
  function ByteExtent(at: nat, blocks: nat, blocksize: nat): (nat, nat) {
    (at * blocksize, blocks * blocksize / LogFinder.BBSIZE)
  }

  function ReadGeo(b: seq<byte>): Geo
    requires SB_END <= |b|
  {
    Geo(Be32(b, 4), b[120], Be16(b, 102), Be32(b, 84), Be32(b, 88), Be64(b, 8), b[124], Be16(b, 104), b[123],
        Be64(b, 48), Be32(b, 96), Be16(b, 194), Be32(b, 196), Be32(b, 212), Be32(b, 216))
  }

  function Parse(b: seq<byte>): Result<Geo>
    requires SB_END <= |b|
  {
    if Be32(b, 0) != SB_MAGIC || Be16(b, 100) % 16 != 5 then Err(NotXfs)
    else
      var geo := ReadGeo(b);
      if geo.Sane() then Ok(geo) else Err(Corrupt)
  }

  function GeoOf(g: Geometry): Geo
    requires g.logAgbno < Pow2(g.agblklog)
  {
    Geo(g.blocksize, Log2(g.blocksize), g.sectsize, g.agsize, g.agcount, g.dblocks, g.agblklog, g.inodesize,
        Log2(InoPerBlock(g)), LogStart(g), g.logblocks, if g.sectsize > 512 then g.sectsize else 0, LogsUnit(g),
        RoCompat(g.features), Incompat(g.features))
  }

  lemma SaneAgain(g: Geometry, s: SbState)
    requires Encodable(g, s)
    ensures g.logAgbno < Pow2(g.agblklog) && GeoOf(g).Sane()
  {
    StartFits(g);
    ShiftFits(g);
    SizesInRange(g, s);
    assert g.dblocks <= g.agcount * g.agsize;
    hide Pow2, Log2, InRange, LogStart, InoPerBlock, LogsUnit, Encodable, Shaped;
  }

  lemma HoldsPart(b: seq<byte>, fs: seq<Field>, pre: seq<Field>, part: seq<Field>, post: seq<Field>)
    requires HoldsAll(b, fs) && fs == pre + part + post
    ensures HoldsAll(b, part)
  {
    hide Holds;
    forall i | 0 <= i < |part|
      ensures Holds(b, part[i])
    {
      assert fs[|pre| + i] == part[i];
    }
  }

  lemma HoldsParts(b: seq<byte>, g: Geometry, s: SbState)
    requires g.logAgbno < Pow2(g.agblklog) && HoldsAll(b, Fields(g, s))
    ensures HoldsAll(b, Names(g, s)) && HoldsAll(b, SizeFields(g, s)) && HoldsAll(b, LogFields(g, s))
    ensures HoldsAll(b, FeatureFields(g))
  {
    hide Names, SizeFields, LogFields, Counters, FeatureFields, HoldsAll, Pow2;
    var n, z, l, c, f := Names(g, s), SizeFields(g, s), LogFields(g, s), Counters(g, s), FeatureFields(g);
    var fs := Fields(g, s);
    assert fs == [] + n + (z + l + c + f);
    assert fs == n + z + (l + c + f);
    assert fs == n + z + l + (c + f);
    assert fs == n + z + l + c + f + [];
    HoldsPart(b, fs, [], n, z + l + c + f);
    HoldsPart(b, fs, n, z, l + c + f);
    HoldsPart(b, fs, n + z, l, c + f);
    HoldsPart(b, fs, n + z + l + c, f, []);
  }

  lemma ReadsBack(b: seq<byte>, g: Geometry, s: SbState)
    requires g.logAgbno < Pow2(g.agblklog) && SB_END <= |b|
    requires HoldsAll(b, Names(g, s)) && HoldsAll(b, SizeFields(g, s)) && HoldsAll(b, LogFields(g, s))
    requires HoldsAll(b, FeatureFields(g))
    ensures ReadGeo(b) == GeoOf(g) && Be32(b, 0) == SB_MAGIC && Be16(b, 100) == VersionNum(g)
  {
    hide Pow2, Log2, LogStart, InoPerBlock, LogsUnit, RextSize, Be16, Be32, Be64, VersionNum, RoCompat, Incompat;
    assert Holds(b, Names(g, s)[0]) && Holds(b, Names(g, s)[1]) && Holds(b, Names(g, s)[2]);
    assert Holds(b, Names(g, s)[6]);
    assert Holds(b, SizeFields(g, s)[1]) && Holds(b, SizeFields(g, s)[2]) && Holds(b, SizeFields(g, s)[4]);
    assert Holds(b, SizeFields(g, s)[5]) && Holds(b, SizeFields(g, s)[6]) && Holds(b, SizeFields(g, s)[7]);
    assert Holds(b, LogFields(g, s)[0]) && Holds(b, LogFields(g, s)[3]) && Holds(b, LogFields(g, s)[4]);
    assert Holds(b, FeatureFields(g)[1]) && Holds(b, FeatureFields(g)[2]);
    assert Holds(b, FeatureFields(g)[6]) && Holds(b, FeatureFields(g)[7]);
  }

  lemma VersionFive(g: Geometry)
    ensures VersionNum(g) % 16 == 5
  {
  }

  /** What the formatter encodes parses, to the geometry it was encoded from. */
  lemma RoundTrip(b: seq<byte>, g: Geometry, s: SbState)
    requires Encodable(g, s) && SB_END <= |b| && g.logAgbno < Pow2(g.agblklog) && HoldsAll(b, Fields(g, s))
    ensures Parse(b) == Ok(GeoOf(g))
  {
    VersionFive(g);
    hide Pow2, Log2, Be16, Be32, Be64, Fields, HoldsAll, ReadGeo, GeoOf, VersionNum, Encodable, Names, SizeFields;
    hide LogFields, FeatureFields, Geo.Sane;
    HoldsParts(b, g, s);
    ReadsBack(b, g, s);
    SaneAgain(g, s);
  }

  lemma ExtentDecodes(geo: Geo, agno: nat, agbno: nat)
    requires agbno < Pow2(geo.agblklog) && geo.logstart == Fsb(geo.agblklog, agno, agbno) && Supported(geo.blocksize)
    ensures geo.LogExtent() ==
            ((agno * geo.agblocks + agbno) * geo.blocksize, geo.logblocks * (geo.blocksize / LogFinder.BBSIZE))
    ensures geo.LogExtent().1 % 2 == 0
  {
    hide Pow2;
    FsbDecodes(geo.agblklog, agno, agbno);
    BasicBlocks(geo.logblocks, geo.blocksize);
  }

  /**
   The log as the admin tool finds it in the superblock is where the formatter wrote it, as long,
   and of an even number of basic blocks.
   */
  lemma LogIsFound(g: Geometry, s: SbState)
    requires Encodable(g, s)
    ensures g.logAgbno < Pow2(g.agblklog)
    ensures GeoOf(g).LogExtent() ==
            ((g.logagno * g.agsize + g.logAgbno) * g.blocksize, g.logblocks * (g.blocksize / LogFinder.BBSIZE))
    ensures GeoOf(g).LogExtent().1 % 2 == 0
  {
    StartFits(g);
    assert Supported(g.blocksize);
    hide Pow2, Shaped, Encodable, Supported, Log2, InoPerBlock, LogsUnit, RoCompat, Incompat, Geo.LogExtent, Fsb;
    ExtentDecodes(GeoOf(g), g.logagno, g.logAgbno);
  }

  lemma BasicBlocks(n: nat, bs: nat)
    requires Supported(bs)
    ensures n * bs / LogFinder.BBSIZE == n * (bs / LogFinder.BBSIZE) && n * (bs / LogFinder.BBSIZE) % 2 == 0
  {
    var k := bs / LogFinder.BBSIZE;
    assert bs == k * LogFinder.BBSIZE && k == k / 2 * 2;
    assert n * bs == n * k * LogFinder.BBSIZE;
    DivModUnique(n * bs, LogFinder.BBSIZE, n * k, 0);
    assert n * k == n * (k / 2) * 2;
    DivModUnique(n * k, 2, n * (k / 2), 0);
  }

  lemma SizesArePowers(p: Params, deviceSize: nat, logical: nat, physical: nat, g: Geometry)
    requires Computed(p, deviceSize, logical, physical) == Ok(g)
    ensures PowerOfTwo(g.blocksize) && PowerOfTwo(g.sectsize) && PowerOfTwo(g.inodesize)
  {
    var sizes, d0, asked, ags := ComputedStages(p, deviceSize, logical, physical);
    hide PowerOfTwo, Trimmed, AskedAgs, LogBlocks, LogBlocksIn, LogFrom;
    assert InRange(sizes.0, 512, MAX_BLOCKSIZE) && InRange(sizes.1, MIN_SECTORSIZE, MAX_SECTORSIZE);
    assert InRange(sizes.2, 512, DINODE_MAX_SIZE);
  }

  /** Every geometry computed can be encoded, so it comes back as it was. */
  lemma ComputedRoundTrips(
      p: Params, deviceSize: nat, logical: nat, physical: nat, g: Geometry, s: SbState, b: seq<byte>)
    requires Computed(p, deviceSize, logical, physical) == Ok(g) && deviceSize < TWO_64 && s.Fits()
    ensures Encodable(g, s) && g.logAgbno < Pow2(g.agblklog)
    ensures SB_END <= |b| && HoldsAll(b, Fields(g, s)) ==> Parse(b) == Ok(GeoOf(g))
  {
    SizesArePowers(p, deviceSize, logical, physical, g);
    ComputedShapes(p, deviceSize, logical, physical, g);
    CountTiles(g.dblocks, g.agcount);
    assert g.dblocks <= g.agcount * g.agsize;
    BlocksBelow(deviceSize, g.blocksize);
    hide Computed, Shaped, AsAsked, PowerOfTwo, Pow2, HoldsAll, Fields, Parse, GeoOf, Blocks;
    EncodableIsBounded(g, s);
    if SB_END <= |b| && HoldsAll(b, Fields(g, s)) {
      RoundTrip(b, g, s);
    }
  }

  lemma BlocksBelow(bytes: nat, bs: pos)
    ensures Blocks(bytes, bs) <= bytes
  {
    var q := bytes / bs;
    assert bytes == q * bs + bytes % bs;
    NoLess(q, bs);
  }

  lemma NoLess(q: nat, m: pos)
    ensures q <= q * m
  {
    assert q * m == q + q * (m - 1);
  }

  /** No field is over the checksum. */
  predicate ClearOfCrc(fs: seq<Field>) {
    forall i :: 0 <= i < |fs| ==> fs[i].End() <= CRC_OFF || CRC_OFF + 4 <= fs[i].off
  }

  lemma ClearConcat(a: seq<Field>, b: seq<Field>)
    requires ClearOfCrc(a) && ClearOfCrc(b)
    ensures ClearOfCrc(a + b)
  {
  }

  lemma BelowIsClear(fs: seq<Field>, lo: nat, hi: nat)
    requires Laid(fs, lo, hi) && hi <= CRC_OFF
    ensures ClearOfCrc(fs)
  {
  }

  lemma FeaturesClearOfCrc(g: Geometry)
    ensures ClearOfCrc(FeatureFields(g))
  {
    hide Log2, LogsUnit, RoCompat, Incompat;
  }

  lemma FieldsClearOfCrc(g: Geometry, s: SbState)
    requires Encodable(g, s) && g.logAgbno < Pow2(g.agblklog)
    ensures ClearOfCrc(Fields(g, s))
  {
    EncodableIsBounded(g, s);
    hide Names, SizeFields, LogFields, Counters, FeatureFields, Pow2, Encodable, Bounded, Laid, ClearOfCrc;
    NamesLaid(g, s);
    SizesLaid(g, s);
    LogsLaid(g, s);
    CountersLaid(g, s);
    BelowIsClear(Names(g, s), 0, 80);
    BelowIsClear(SizeFields(g, s), 80, 120);
    BelowIsClear(LogFields(g, s), 120, 128);
    BelowIsClear(Counters(g, s), 128, 193);
    FeaturesClearOfCrc(g);
    ClearConcat(Names(g, s), SizeFields(g, s));
    ClearConcat(Names(g, s) + SizeFields(g, s), LogFields(g, s));
    ClearConcat(Names(g, s) + SizeFields(g, s) + LogFields(g, s), Counters(g, s));
    ClearConcat(Names(g, s) + SizeFields(g, s) + LogFields(g, s) + Counters(g, s), FeatureFields(g));
  }

  /** Stamping the checksum leaves every field, and so what is read back, as it was. */
  lemma StampKeepsFields(b: seq<byte>, stamped: seq<byte>, g: Geometry, s: SbState)
    requires Encodable(g, s) && g.logAgbno < Pow2(g.agblklog) && HoldsAll(b, Fields(g, s))
    requires SB_END <= |b| == |stamped|
    requires forall i :: 0 <= i < |b| && !(CRC_OFF <= i < CRC_OFF + 4) ==> stamped[i] == b[i]
    ensures HoldsAll(stamped, Fields(g, s)) && Parse(stamped) == Ok(GeoOf(g))
  {
    FieldsClearOfCrc(g, s);
    hide Fields, Encodable, Pow2, Holds, Parse, GeoOf;
    forall i | 0 <= i < |Fields(g, s)|
      ensures Holds(stamped, Fields(g, s)[i])
    {
      HoldsKept(b, stamped, Fields(g, s)[i]);
    }
    RoundTrip(stamped, g, s);
  }

  /**
   A finished superblock is told from the one first written, from zeroes and from any of another
   UUID: what the order of a format's writes relies on.
   */
  lemma FinishedIsTold(b: seq<byte>, other: seq<byte>, g: Geometry, s: SbState, s': SbState)
    requires g.logAgbno < Pow2(g.agblklog) && SB_END <= |b| == |other|
    requires HoldsAll(b, Fields(g, s)) && !s.inprogress && |s.uuid| == 16
    requires || (HoldsAll(other, Fields(g, s')) && s'.inprogress)
             || (forall i :: 0 <= i < |other| ==> other[i] == 0)
             || other[32..48] != s.uuid
    ensures b != other
  {
    HoldsParts(b, g, s);
    hide Fields, Pow2, LogStart, Log2, InoPerBlock;
    assert Holds(b, Names(g, s)[0]) && Holds(b, Names(g, s)[5]) && Holds(b, LogFields(g, s)[6]);
    if HoldsAll(other, Fields(g, s')) && s'.inprogress {
      HoldsParts(other, g, s');
      assert Holds(other, LogFields(g, s')[6]);
    }
  }

  /** A superblock that says no format is in progress. */
  predicate IsFinished(b: seq<byte>) {
    SB_END <= |b| && Be32(b, 0) == SB_MAGIC && b[126] == 0
  }

  /** Only a superblock encoded as finished is one; zeroes are not. */
  lemma FinishedIff(b: seq<byte>, zeroes: seq<byte>, g: Geometry, s: SbState)
    requires g.logAgbno < Pow2(g.agblklog) && SB_END <= |b| && HoldsAll(b, Fields(g, s))
    requires forall i :: 0 <= i < |zeroes| ==> zeroes[i] == 0
    ensures IsFinished(b) <==> !s.inprogress
    ensures !IsFinished(zeroes)
  {
    HoldsParts(b, g, s);
    hide Fields, Pow2, LogStart, Log2, InoPerBlock;
    assert Holds(b, Names(g, s)[0]) && Holds(b, LogFields(g, s)[6]);
  }

  /** A parsed superblock's groups are as long as the formatter's. */
  lemma LengthsAgree(g: Geometry, s: SbState, agno: nat)
    requires Encodable(g, s)
    ensures g.logAgbno < Pow2(g.agblklog) && GeoOf(g).AgLen(agno) == g.AgBlocks(agno)
  {
    StartFits(g);
    hide Pow2, Log2, LogStart, InoPerBlock, LogsUnit, RoCompat, Incompat, Encodable, Shaped;
  }

  /** And its blocks are at the same bytes. */
  lemma BytesAgree(g: Geometry, s: SbState, agno: nat, agbno: nat)
    requires Encodable(g, s)
    ensures g.logAgbno < Pow2(g.agblklog)
    ensures GeoOf(g).Byte(agno, agbno) == (agno * g.agsize + agbno) * g.blocksize
  {
    hide Pow2, Log2, LogStart, InoPerBlock, LogsUnit, RoCompat, Incompat, Encodable, Shaped, Geo.Byte;
    BlockShift(g, s);
    ByteIs(GeoOf(g), g.agsize, agno, agbno, g.blocksize);
  }

  lemma BlockShift(g: Geometry, s: SbState)
    requires Encodable(g, s)
    ensures g.logAgbno < Pow2(g.agblklog) && Pow2(Log2(g.blocksize)) == g.blocksize
  {
    StartFits(g);
    SizesInRange(g, s);
  }

  lemma ByteIs(geo: Geo, agsize: nat, agno: nat, agbno: nat, bs: nat)
    requires Pow2(geo.blocklog) == bs && geo.agblocks == agsize
    ensures geo.Byte(agno, agbno) == (agno * agsize + agbno) * bs
  {
    hide Pow2;
  }

  lemma LaidWithin(fs: seq<Field>, len: nat)
    requires Laid(fs, 0, SB_END) && SB_END <= len
    ensures Laid(fs, 0, len)
  {
  }

  /** Encode a superblock into a sector of zeroes, with its checksum. */
  method Encode(g: Geometry, s: SbState, sector: array<byte>)
    requires Encodable(g, s) && sector.Length == g.sectsize
    modifies sector
    ensures g.logAgbno < Pow2(g.agblklog) && HoldsAll(sector[..], Fields(g, s))
    ensures Checksum.Sealed(sector[..], CRC_OFF) && SB_END <= sector.Length
    ensures Parse(sector[..]) == Ok(GeoOf(g))
  {
    hide Fields, Encodable, Pow2, HoldsAll, Laid, Parse, GeoOf, Checksum.Sealed;
    FieldsLaid(g, s);
    SizesInRange(g, s);
    LaidWithin(Fields(g, s), sector.Length);
    PutFields(sector, Fields(g, s));
    ghost var before := sector[..];
    Checksum.Seal(sector, sector.Length, CRC_OFF);
    assert sector[..sector.Length] == sector[..];
    StampKeepsFields(before, sector[..], g, s);
  }
}
