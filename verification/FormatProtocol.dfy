/**
 The order a format writes in, on a device that may lose or keep any write since its last flush.

 A device is a sequence of units, the smallest piece a write leaves whole. A crash leaves each unit
 as it was at the last flush, or as any write issued since left it.
 */
module FormatProtocol {
  import opened Prelude
  import opened Geometry
  import opened AgGeometry
  import opened AgPlan
  import opened Compute
  import opened Planning

  type Unit = seq<byte>

  datatype Write = Write(at: nat, data: seq<Unit>) {
    predicate Covers(u: nat) {
      at <= u < at + |data|
    }

    function Of(u: nat): Unit
      requires Covers(u)
    {
      data[u - at]
    }
  }

  datatype Op = Issue(write: Write) | Flush

  /** What a flush has made durable, and the writes since. */
  datatype Disk = Disk(durable: seq<Unit>, pending: seq<Write>) {
    function Step(op: Op): Disk {
      match op
      case Issue(w) => Disk(durable, pending + [w])
      case Flush => Disk(Settled(durable, pending), [])
    }

    function Run(ops: seq<Op>): (after: Disk)
      ensures |after.durable| == |durable|
      decreases |ops|
    {
      if ops == [] then this else Run(ops[..|ops| - 1]).Step(ops[|ops| - 1])
    }

    /** What a crash now may leave. */
    ghost predicate MayLeave(img: seq<Unit>) {
      && |img| == |durable|
      && forall u :: 0 <= u < |img| ==>
           img[u] == durable[u] || exists w :: w in pending && w.Covers(u) && img[u] == w.Of(u)
    }
  }

  /** Unit `u` once the writes have landed in order. */
  function Landed(was: Unit, ws: seq<Write>, u: nat): Unit
    decreases |ws|
  {
    if ws == [] then was
    else
      var w := ws[|ws| - 1];
      if w.Covers(u) then w.Of(u) else Landed(was, ws[..|ws| - 1], u)
  }

  function Settled(img: seq<Unit>, ws: seq<Write>): (after: seq<Unit>)
    ensures |after| == |img|
    ensures forall u :: 0 <= u < |img| ==> after[u] == Landed(img[u], ws, u)
  {
    seq(|img|, u requires 0 <= u < |img| => Landed(img[u], ws, u))
  }

  function Issues(ws: seq<Write>): (ops: seq<Op>)
    ensures |ops| == |ws| && forall i :: 0 <= i < |ws| ==> ops[i] == Issue(ws[i])
  {
    seq(|ws|, i requires 0 <= i < |ws| => Issue(ws[i]))
  }

  // ---------------------------------------------------------------------------------------
  // Writes and their order.

  /** No two different writes touch the same unit. */
  ghost predicate Apart(ws: seq<Write>) {
    forall v, w, u: nat :: v in ws && w in ws && v.Covers(u) && w.Covers(u) ==> v == w
  }

  lemma {:induction false} LandedIs(was: Unit, ws: seq<Write>, w: Write, u: nat)
    requires Apart(ws) && w in ws && w.Covers(u)
    ensures Landed(was, ws, u) == w.Of(u)
  {
    var last := ws[|ws| - 1];
    if !last.Covers(u) {
      var rest := ws[..|ws| - 1];
      assert ws == rest + [last];
      assert forall v :: v in rest ==> v in ws;
      LandedIs(was, rest, w, u);
    }
  }

  lemma {:induction false} LandedIsNot(was: Unit, ws: seq<Write>, u: nat)
    requires forall w :: w in ws ==> !w.Covers(u)
    ensures Landed(was, ws, u) == was
  {
    if ws != [] {
      assert ws[|ws| - 1] in ws;
      assert forall v :: v in ws[..|ws| - 1] ==> v in ws;
      LandedIsNot(was, ws[..|ws| - 1], u);
    }
  }

  /** Writes apart from each other land the same in any order, however often repeated. */
  lemma AnyOrder(img: seq<Unit>, ws: seq<Write>, ws': seq<Write>)
    requires Apart(ws) && forall w :: w in ws <==> w in ws'
    ensures Settled(img, ws) == Settled(img, ws')
  {
    forall u | 0 <= u < |img|
      ensures Landed(img[u], ws, u) == Landed(img[u], ws', u)
    {
      if w :| w in ws && w.Covers(u) {
        LandedIs(img[u], ws, w, u);
        LandedIs(img[u], ws', w, u);
      } else {
        LandedIsNot(img[u], ws, u);
        LandedIsNot(img[u], ws', u);
      }
    }
  }

  lemma {:induction false} LandedConcat(was: Unit, a: seq<Write>, b: seq<Write>, u: nat)
    ensures Landed(was, a + b, u) == Landed(Landed(was, a, u), b, u)
  {
    if b == [] {
      assert a + b == a;
    } else {
      assert (a + b)[..|a + b| - 1] == a + b[..|b| - 1];
      LandedConcat(was, a, b[..|b| - 1], u);
    }
  }

  lemma SettledConcat(img: seq<Unit>, a: seq<Write>, b: seq<Write>)
    ensures Settled(img, a + b) == Settled(Settled(img, a), b)
  {
    forall u | 0 <= u < |img|
      ensures Landed(img[u], a + b, u) == Landed(Landed(img[u], a, u), b, u)
    {
      LandedConcat(img[u], a, b, u);
    }
  }

  lemma {:induction false} RunConcat(d: Disk, a: seq<Op>, b: seq<Op>)
    ensures d.Run(a + b) == d.Run(a).Run(b)
    decreases |b|
  {
    if b == [] {
      assert a + b == a;
    } else {
      assert (a + b)[..|a + b| - 1] == a + b[..|b| - 1];
      RunConcat(d, a, b[..|b| - 1]);
    }
  }

  lemma {:induction false} RunIssues(d: Disk, ws: seq<Write>)
    ensures d.Run(Issues(ws)) == Disk(d.durable, d.pending + ws)
    decreases |ws|
  {
    if ws == [] {
      assert d.pending + ws == d.pending;
    } else {
      var ops := Issues(ws);
      assert ops[..|ops| - 1] == Issues(ws[..|ws| - 1]);
      RunIssues(d, ws[..|ws| - 1]);
      assert d.pending + ws == d.pending + ws[..|ws| - 1] + [ws[|ws| - 1]];
    }
  }

  // ---------------------------------------------------------------------------------------
  // A format's writes.

  /** What a format writes: zeroes, groups' headers and roots, the log record, the root chunk, the finished unit. */
  datatype Parts = Parts(
    zero: Unit, heads: seq<seq<Unit>>, record: seq<Unit>, chunk: seq<Unit>, finished: Unit)

  /** Pieces of the right size. */
  predicate PartsFit(g: Geometry, upb: pos, parts: Parts) {
    && |parts.heads| == g.agcount
    && (forall a :: 0 <= a < g.agcount ==> |parts.heads[a]| == g.PreallocBlocks() * upb)
    && |parts.record| == upb
    && |parts.chunk| == g.ChunkBlocks() * upb
  }

  /** The first unit of block `agbno` of group `agno`. */
  function UnitAt(g: Geometry, upb: pos, agno: nat, agbno: nat): nat {
    (agno * g.agsize + agbno) * upb
  }

  /** Zeroes over `len` units. */
  function Blank(parts: Parts, at: nat, len: nat): Write {
    Write(at, seq(len, _ => parts.zero))
  }

  /** Old signatures at both ends of the device, and the log. */
  function Clearing(g: Geometry, upb: pos, whack: nat, units: nat, parts: Parts): seq<Write> {
    var end := units / upb * upb;
    var tail := Max(end - whack, 0) / upb * upb;
    [Blank(parts, 0, Min(whack, end)),
     Blank(parts, tail, Max(end - tail, 0)),
     Blank(parts, UnitAt(g, upb, g.logagno, g.logAgbno), g.logblocks * upb)]
  }

  function Head(g: Geometry, upb: pos, parts: Parts, agno: nat): Write
    requires agno < |parts.heads|
  {
    Write(UnitAt(g, upb, agno, 0), parts.heads[agno])
  }

  function LogRecord(g: Geometry, upb: pos, parts: Parts): Write {
    Write(UnitAt(g, upb, g.logagno, g.logAgbno), parts.record)
  }

  function RootChunk(g: Geometry, upb: pos, parts: Parts): Write {
    Write(UnitAt(g, upb, 0, g.RootChunkAgbno()), parts.chunk)
  }

  /** The groups are written at once: in some order. */
  ghost predicate Schedule(g: Geometry, order: seq<nat>) {
    && (forall i :: 0 <= i < |order| ==> order[i] < g.agcount)
    && (forall a :: 0 <= a < g.agcount ==> a in order)
  }

  function Heads(g: Geometry, upb: pos, parts: Parts, order: seq<nat>): (ws: seq<Write>)
    requires |parts.heads| == g.agcount && Schedule(g, order)
    ensures |ws| == |order| && forall i :: 0 <= i < |ws| ==> ws[i] == Head(g, upb, parts, order[i])
  {
    seq(|order|, i requires 0 <= i < |order| => Head(g, upb, parts, order[i]))
  }

  function Metadata(g: Geometry, upb: pos, parts: Parts, order: seq<nat>): seq<Write>
    requires |parts.heads| == g.agcount && Schedule(g, order)
  {
    [LogRecord(g, upb, parts)] + Heads(g, upb, parts, order) + [RootChunk(g, upb, parts)]
  }

  lemma FewerUnits(few: nat, many: nat, upb: pos)
    requires 0 < few <= many
    ensures 0 < few * upb <= many * upb
  {
  }

  function FinishedHead(head: seq<Unit>, finished: Unit, n: nat): (w: Write)
    requires 0 < n <= |head|
    ensures forall u: nat :: w.Covers(u) ==> u < |head| && w.Of(u) == if u == 0 then finished else head[u]
    ensures w.Covers(0)
  {
    Write(0, head[0 := finished][..n])
  }

  /** Group 0's header blocks again, now finished. */
  function Finish(g: Geometry, upb: pos, parts: Parts): Write
    requires PartsFit(g, upb, parts) && 0 < g.HeaderBlocks() <= g.PreallocBlocks()
  {
    FewerUnits(g.HeaderBlocks(), g.PreallocBlocks(), upb);
    FinishedHead(parts.heads[0], parts.finished, g.HeaderBlocks() * upb)
  }

  /** Everything before the first flush. */
  function Before(g: Geometry, upb: pos, whack: nat, units: nat, parts: Parts, order: seq<nat>): seq<Write>
    requires |parts.heads| == g.agcount && Schedule(g, order)
  {
    Clearing(g, upb, whack, units, parts) + Metadata(g, upb, parts, order)
  }

  function FormatOps(g: Geometry, upb: pos, whack: nat, units: nat, parts: Parts, order: seq<nat>): seq<Op>
    requires PartsFit(g, upb, parts) && Schedule(g, order) && 0 < g.HeaderBlocks() <= g.PreallocBlocks()
  {
    Issues(Before(g, upb, whack, units, parts, order)) + [Flush] + Issues([Finish(g, upb, parts)]) + [Flush]
  }

  // ---------------------------------------------------------------------------------------
  // The order of the groups does not matter.

  /** Headers, log and root chunk each inside their groups, and none over another. */
  predicate Placed(g: Geometry) {
    && 0 < g.logagno < g.agcount
    && g.PreallocBlocks() <= g.logAgbno && g.logAgbno + 1 <= g.agsize
    && g.PreallocBlocks() <= g.RootChunkAgbno() && g.RootChunkAgbno() + g.ChunkBlocks() <= g.agsize
  }

  lemma Covered(g: Geometry, upb: pos, agno: nat, lo: nat, len: nat, u: nat)
    requires lo + len <= g.agsize && UnitAt(g, upb, agno, lo) <= u < UnitAt(g, upb, agno, lo) + len * upb
    ensures u / upb / g.agsize == agno && lo <= u / upb % g.agsize < lo + len
  {
    var b, first := u / upb, agno * g.agsize + lo;
    assert (first + len) * upb == first * upb + len * upb;
    assert u == b * upb + u % upb;
    BetweenMultiples(first, b, len, upb, u);
    DivModUnique(b, g.agsize, agno, b - agno * g.agsize);
  }

  lemma BetweenMultiples(first: nat, b: nat, len: nat, m: pos, u: nat)
    requires first * m <= u < (first + len) * m && b == u / m
    ensures first <= b < first + len
  {
    assert b * m <= u < (b + 1) * m;
    MulOrder(first, b + 1, m);
    MulOrder(b, first + len, m);
  }

  /** Where a metadata write goes: group, first block in it, and blocks. */
  ghost predicate Goes(g: Geometry, upb: pos, parts: Parts, w: Write, agno: nat, lo: nat, len: nat) {
    && w.at == UnitAt(g, upb, agno, lo) && |w.data| == len * upb && lo + len <= g.agsize
    && (|| (lo == 0 && len == g.PreallocBlocks() && agno < |parts.heads| && w == Head(g, upb, parts, agno))
        || (agno == g.logagno && lo == g.logAgbno && len == 1 && w == LogRecord(g, upb, parts))
        || (agno == 0 && lo == g.RootChunkAgbno() && len == g.ChunkBlocks() && w == RootChunk(g, upb, parts)))
  }

  lemma MetadataGoes(g: Geometry, upb: pos, parts: Parts, order: seq<nat>, w: Write)
      returns (agno: nat, lo: nat, len: nat)
    requires PartsFit(g, upb, parts) && Placed(g) && Schedule(g, order) && w in Metadata(g, upb, parts, order)
    ensures Goes(g, upb, parts, w, agno, lo, len)
  {
    if w == LogRecord(g, upb, parts) {
      agno, lo, len := g.logagno, g.logAgbno, 1;
    } else if w == RootChunk(g, upb, parts) {
      agno, lo, len := 0, g.RootChunkAgbno(), g.ChunkBlocks();
    } else {
      assert w in Heads(g, upb, parts, order);
      var i :| 0 <= i < |order| && w == Head(g, upb, parts, order[i]);
      agno, lo, len := order[i], 0, g.PreallocBlocks();
    }
  }

  /** The log record, the groups' headers and the root chunk are all apart. */
  lemma MetadataApart(g: Geometry, upb: pos, parts: Parts, order: seq<nat>)
    requires PartsFit(g, upb, parts) && Placed(g) && Schedule(g, order)
    ensures Apart(Metadata(g, upb, parts, order))
  {
    var ws := Metadata(g, upb, parts, order);
    forall v, w, u: nat | v in ws && w in ws && v.Covers(u) && w.Covers(u)
      ensures v == w
    {
      var a, l, n := MetadataGoes(g, upb, parts, order, v);
      var a', l', n' := MetadataGoes(g, upb, parts, order, w);
      Covered(g, upb, a, l, n, u);
      Covered(g, upb, a', l', n', u);
    }
  }

  ghost predicate IsHead(g: Geometry, upb: pos, parts: Parts, w: Write) {
    exists a :: 0 <= a < |parts.heads| && w == Head(g, upb, parts, a)
  }

  lemma HeadsHas(g: Geometry, upb: pos, parts: Parts, order: seq<nat>, w: Write)
    requires |parts.heads| == g.agcount && Schedule(g, order)
    ensures w in Heads(g, upb, parts, order) <==> IsHead(g, upb, parts, w)
  {
    hide Head, Heads;
    var heads := Heads(g, upb, parts, order);
    if IsHead(g, upb, parts, w) {
      var a :| 0 <= a < |parts.heads| && w == Head(g, upb, parts, a);
      assert a in order;
      var i :| 0 <= i < |order| && order[i] == a;
      assert heads[i] == w;
    }
    if w in heads {
      var i :| 0 <= i < |heads| && heads[i] == w;
      assert order[i] < |parts.heads|;
    }
  }

  lemma Between<T>(a: T, mid: seq<T>, b: T, x: T)
    ensures x in [a] + mid + [b] <==> x == a || x == b || x in mid
  {
  }

  lemma MetadataHas(g: Geometry, upb: pos, parts: Parts, order: seq<nat>, w: Write)
    requires |parts.heads| == g.agcount && Schedule(g, order)
    ensures w in Metadata(g, upb, parts, order) <==>
            w == LogRecord(g, upb, parts) || w == RootChunk(g, upb, parts) || IsHead(g, upb, parts, w)
  {
    HeadsHas(g, upb, parts, order, w);
    hide Heads, LogRecord, RootChunk, Head, IsHead;
    Between(LogRecord(g, upb, parts), Heads(g, upb, parts, order), RootChunk(g, upb, parts), w);
  }

  /**
   Whatever order the groups are written in, and the log record and root chunk among them, the
   device holds the same before the first flush.
   */
  lemma AnyInterleaving(
      img: seq<Unit>, g: Geometry, upb: pos, whack: nat, parts: Parts,
      order: seq<nat>, order': seq<nat>, ws: seq<Write>)
    requires PartsFit(g, upb, parts) && Placed(g) && Schedule(g, order) && Schedule(g, order')
    requires forall w :: w in ws <==> w in Metadata(g, upb, parts, order')
    ensures Settled(img, Before(g, upb, whack, |img|, parts, order)) ==
            Settled(img, Clearing(g, upb, whack, |img|, parts) + ws)
  {
    var first, rest := Clearing(g, upb, whack, |img|, parts), Metadata(g, upb, parts, order);
    SettledConcat(img, first, rest);
    SettledConcat(img, first, ws);
    MetadataApart(g, upb, parts, order);
    forall w
      ensures w in rest <==> w in ws
    {
      MetadataHas(g, upb, parts, order, w);
      MetadataHas(g, upb, parts, order', w);
    }
    AnyOrder(Settled(img, first), rest, ws);
  }

  /** Every geometry computed with groups that tile places its metadata apart. */
  lemma ComputedPlaced(p: Params, deviceSize: nat, logicalSector: nat, physicalSector: nat, g: Geometry)
    requires Computed(p, deviceSize, logicalSector, physicalSector) == Ok(g)
    ensures Placed(g) && 0 < g.HeaderBlocks() <= g.PreallocBlocks()
  {
    ComputedLog(p, deviceSize, logicalSector, physicalSector, g);
    ComputedShapes(p, deviceSize, logicalSector, physicalSector, g);
    hide Computed, AsAsked;
    SmallPlaces(g);
    LogSizes(g.blocksize);
    RootChunkIsLow(g);
    Positions(g);
    hide AgMin, AgMax, Blocks, LogBlocks, LogFrom, Accepted;
    RootChunkIsHigh(g);
  }

  lemma RootChunkIsHigh(g: Geometry)
    requires g.logagno > 0
    ensures g.PreallocBlocks() <= g.RootChunkAgbno()
  {
    Positions(g);
    var first := g.PreallocBlocks() + g.MinFreelist();
    if g.InoAlignmt() > 1 {
      RoundUpBounds(first, g.InoAlignmt());
    }
  }

  // ---------------------------------------------------------------------------------------
  // Crashes.

  /** A format of a device of `|init|` units: what is fixed and what fits. */
  ghost predicate Formats(init: seq<Unit>, g: Geometry, upb: pos, parts: Parts, order: seq<nat>) {
    && PartsFit(g, upb, parts) && Placed(g) && Schedule(g, order)
    && 0 < g.HeaderBlocks() <= g.PreallocBlocks() && init != []
  }

  /** The image a whole format leaves. */
  function Formatted(init: seq<Unit>, g: Geometry, upb: pos, whack: nat, parts: Parts, order: seq<nat>): seq<Unit>
    requires PartsFit(g, upb, parts) && Schedule(g, order) && 0 < g.HeaderBlocks() <= g.PreallocBlocks()
  {
    Settled(Settled(init, Before(g, upb, whack, |init|, parts, order)), [Finish(g, upb, parts)])
  }

  lemma RunStep(d: Disk, ops: seq<Op>, k: nat)
    requires k < |ops|
    ensures d.Run(ops[..k + 1]) == d.Run(ops[..k]).Step(ops[k])
  {
    assert ops[..k + 1][..k] == ops[..k];
  }

  /** The states a format goes through, one per operation. */
  function FormatState(init: seq<Unit>, before: seq<Write>, last: Write, k: nat): Disk {
    var flushed := Settled(init, before);
    if k <= |before| then Disk(init, before[..k])
    else if k == |before| + 1 then Disk(flushed, [])
    else if k == |before| + 2 then Disk(flushed, [last])
    else Disk(Settled(flushed, [last]), [])
  }

  lemma StateStep(init: seq<Unit>, before: seq<Write>, last: Write, k: nat, op: Op)
    requires |before| <= k < |before| + 3 && op == if k == |before| + 1 then Issue(last) else Flush
    ensures FormatState(init, before, last, k).Step(op) == FormatState(init, before, last, k + 1)
  {
    assert before[..|before|] == before && [] + [last] == [last];
  }

  lemma FormatPrefix(init: seq<Unit>, before: seq<Write>, last: Write, ops: seq<Op>, k: nat)
    requires ops == Issues(before) + [Flush] + Issues([last]) + [Flush] && k <= |ops|
    ensures Disk(init, []).Run(ops[..k]) == FormatState(init, before, last, k)
  {
    if k <= |before| {
      assert ops[..k] == Issues(before[..k]);
      RunIssues(Disk(init, []), before[..k]);
      assert [] + before[..k] == before[..k];
    } else {
      FormatPrefix(init, before, last, ops, k - 1);
      RunStep(Disk(init, []), ops, k - 1);
      assert ops[k - 1] == if k == |before| + 2 then Issue(last) else Flush;
      hide Settled, Issues, FormatState, Disk.Run, Disk.Step;
      StateStep(init, before, last, k - 1, ops[k - 1]);
    }
  }

  lemma ClearingIsZero(g: Geometry, upb: pos, whack: nat, units: nat, parts: Parts, w: Write, u: nat)
    requires w in Clearing(g, upb, whack, units, parts) && w.Covers(u)
    ensures w.Of(u) == parts.zero
  {
    hide UnitAt;
  }

  /** Only the clearing and group 0's headers touch the first unit before the flush. */
  lemma FirstUnit(init: seq<Unit>, g: Geometry, upb: pos, whack: nat, parts: Parts, order: seq<nat>, w: Write)
    requires Formats(init, g, upb, parts, order)
    requires w in Before(g, upb, whack, |init|, parts, order) && w.Covers(0)
    ensures w.Of(0) == parts.zero || (parts.heads[0] != [] && w.Of(0) == parts.heads[0][0])
  {
    hide Clearing, Metadata;
    if w in Metadata(g, upb, parts, order) {
      var agno, lo, len := MetadataGoes(g, upb, parts, order, w);
      Covered(g, upb, agno, lo, len, 0);
    } else {
      ClearingIsZero(g, upb, whack, |init|, parts, w, 0);
    }
  }

  /** Group 0's headers are as written once everything has landed. */
  lemma HeadersLand(init: seq<Unit>, g: Geometry, upb: pos, whack: nat, parts: Parts, order: seq<nat>, u: nat)
    requires Formats(init, g, upb, parts, order) && u < |init| && u < g.PreallocBlocks() * upb
    ensures Settled(init, Before(g, upb, whack, |init|, parts, order))[u] == parts.heads[0][u]
  {
    var first, rest := Clearing(g, upb, whack, |init|, parts), Metadata(g, upb, parts, order);
    SettledConcat(init, first, rest);
    MetadataApart(g, upb, parts, order);
    var w := Head(g, upb, parts, 0);
    assert IsHead(g, upb, parts, w);
    MetadataHas(g, upb, parts, order, w);
    LandedIs(Settled(init, first)[u], rest, w, u);
  }

  lemma FinishIs(g: Geometry, upb: pos, parts: Parts, u: nat)
    requires PartsFit(g, upb, parts) && 0 < g.HeaderBlocks() <= g.PreallocBlocks()
    ensures var last := Finish(g, upb, parts);
            && last.Covers(0) && last.Of(0) == parts.finished
            && (last.Covers(u) ==> u < g.PreallocBlocks() * upb && u < |parts.heads[0]|)
            && (u > 0 && last.Covers(u) ==> last.Of(u) == parts.heads[0][u])
  {
    FewerUnits(g.HeaderBlocks(), g.PreallocBlocks(), upb);
    hide FinishedHead, CeilDiv;
  }

  lemma LandedOne(was: Unit, w: Write, u: nat)
    ensures Landed(was, [w], u) == if w.Covers(u) then w.Of(u) else was
  {
    assert [w][..0] == [];
  }

  /** Finishing changes the first unit and rewrites the rest of the headers as they are. */
  lemma FinishChangesOne(
      init: seq<Unit>, g: Geometry, upb: pos, whack: nat, parts: Parts, order: seq<nat>, u: nat)
    requires Formats(init, g, upb, parts, order) && u < |init|
    ensures var flushed := Settled(init, Before(g, upb, whack, |init|, parts, order));
            var last := Finish(g, upb, parts);
            && (u > 0 && last.Covers(u) ==> last.Of(u) == flushed[u])
            && last.Covers(0) && last.Of(0) == parts.finished
            && Formatted(init, g, upb, whack, parts, order)[u] == if u == 0 then parts.finished else flushed[u]
  {
    FinishIs(g, upb, parts, u);
    hide Before, Finish, PartsFit, Placed, Schedule;
    if Finish(g, upb, parts).Covers(u) {
      HeadersLand(init, g, upb, whack, parts, order, u);
    }
    LandedOne(Settled(init, Before(g, upb, whack, |init|, parts, order))[u], Finish(g, upb, parts), u);
  }

  // ---------------------------------------------------------------------------------------
  // What a format means every unit to hold.

  /** A unit of a run of blocks. */
  function Nth(run: seq<Unit>, b: int, upb: pos, k: nat): Unit {
    if 0 <= b * upb + k < |run| then run[b * upb + k] else []
  }

  /** The group and the block that unit `u` is in. */
  function GroupOf(g: Geometry, upb: pos, u: nat): nat {
    Quotient(Quotient(u, upb), g.agsize)
  }

  function BlockOf(g: Geometry, upb: pos, u: nat): nat {
    Quotient(u, upb) % g.agsize
  }

  /** The unit of a group's headers and roots, the root chunk or the log record that belongs at `u`. */
  function Piece(g: Geometry, upb: pos, parts: Parts, u: nat): Option<Unit> {
    var a, b, k := GroupOf(g, upb, u), BlockOf(g, upb, u), u % upb;
    if a < |parts.heads| && b < g.PreallocBlocks() then Some(Nth(parts.heads[a], b, upb, k))
    else if a == 0 && g.RootChunkAgbno() <= b < g.RootChunkAgbno() + g.ChunkBlocks() then
      Some(Nth(parts.chunk, b - g.RootChunkAgbno(), upb, k))
    else if a == g.logagno && b == g.logAgbno then Some(Nth(parts.record, 0, upb, k))
    else None
  }

  /** Unit `u` of an image, whatever the order of the writes: where it is decides what it holds. */
  function Meant(init: seq<Unit>, g: Geometry, upb: pos, whack: nat, parts: Parts, u: nat): Unit
    requires u < |init|
  {
    var log := (g.logagno * g.agsize + g.logAgbno) * upb;
    var end := Quotient(|init|, upb) * upb;
    var tail := Quotient(Max(end - whack, 0), upb) * upb;
    if u == 0 then parts.finished
    else if Piece(g, upb, parts, u).Some? then Piece(g, upb, parts, u).value
    else if log <= u < log + g.logblocks * upb || u < Min(whack, end) || tail <= u < end then parts.zero
    else init[u]
  }

  lemma InGroup(g: Geometry, upb: pos, u: nat)
    ensures var a, b := GroupOf(g, upb, u), BlockOf(g, upb, u);
            u == UnitAt(g, upb, a, b) + u % upb && b < g.agsize
  {
    var q := u / upb;
    assert u == q * upb + u % upb;
    assert q == q / g.agsize * g.agsize + q % g.agsize;
  }

  /** The unit `x` blocks and `k` units into a run that starts at block `lo` of a group. */
  lemma InRun(g: Geometry, upb: pos, a: nat, lo: nat, b: nat, k: nat)
    requires lo <= b
    ensures UnitAt(g, upb, a, b) + k - UnitAt(g, upb, a, lo) == (b - lo) * upb + k
  {
    assert (a * g.agsize + b) * upb == (a * g.agsize + lo) * upb + (b - lo) * upb;
  }

  lemma BlockInRun(x: nat, n: nat, k: nat, upb: pos)
    requires k < upb
    ensures x < n <==> x * upb + k < n * upb
  {
    if x < n {
      MulGrows(x + 1, n, upb);
      assert (x + 1) * upb == x * upb + upb;
    } else {
      MulGrows(n, x, upb);
    }
  }

  /** A write that goes to a run of blocks covers exactly the units of those blocks. */
  lemma RunCovers(g: Geometry, upb: pos, w: Write, agno: nat, lo: nat, len: nat, u: nat)
    requires w.at == UnitAt(g, upb, agno, lo) && |w.data| == len * upb && lo + len <= g.agsize
    ensures w.Covers(u) <==> GroupOf(g, upb, u) == agno && lo <= BlockOf(g, upb, u) < lo + len
    ensures w.Covers(u) ==> u - w.at == (BlockOf(g, upb, u) - lo) * upb + u % upb
  {
    if w.Covers(u) {
      Covered(g, upb, agno, lo, len, u);
    }
    var b := BlockOf(g, upb, u);
    InGroup(g, upb, u);
    if GroupOf(g, upb, u) == agno && lo <= b < lo + len {
      InRun(g, upb, agno, lo, b, u % upb);
      BlockInRun(b - lo, len, u % upb, upb);
    }
  }

  lemma RunOf(run: seq<Unit>, b: nat, upb: pos, k: nat, at: nat)
    requires at == b * upb + k && at < |run|
    ensures Nth(run, b, upb, k) == run[at]
  {
  }

  /** A metadata write puts the unit that belongs there. */
  lemma WriteIsPiece(g: Geometry, upb: pos, parts: Parts, w: Write, agno: nat, lo: nat, len: nat, u: nat)
    requires PartsFit(g, upb, parts) && Placed(g) && Goes(g, upb, parts, w, agno, lo, len) && w.Covers(u)
    ensures Piece(g, upb, parts, u) == Some(w.Of(u))
  {
    RunCovers(g, upb, w, agno, lo, len, u);
    hide GroupOf, BlockOf, Nth, Geometry.PreallocBlocks, Geometry.RootChunkAgbno, Geometry.ChunkBlocks;
    RunOf(w.data, BlockOf(g, upb, u) - lo, upb, u % upb, u - w.at);
  }

  /** The one metadata write over a unit, if there is any, by where the unit is. */
  lemma MetadataMeant(was: Unit, g: Geometry, upb: pos, parts: Parts, order: seq<nat>, u: nat)
    requires PartsFit(g, upb, parts) && Placed(g) && Schedule(g, order)
    ensures var piece := Piece(g, upb, parts, u);
            Landed(was, Metadata(g, upb, parts, order), u) == if piece.Some? then piece.value else was
  {
    hide Metadata, Landed, Piece, Placed, Goes;
    var ws := Metadata(g, upb, parts, order);
    MetadataApart(g, upb, parts, order);
    if w :| w in ws && w.Covers(u) {
      LandedIs(was, ws, w, u);
      var agno, lo, len := MetadataGoes(g, upb, parts, order, w);
      WriteIsPiece(g, upb, parts, w, agno, lo, len, u);
    } else {
      LandedIsNot(was, ws, u);
      NothingThere(g, upb, parts, order, u);
    }
  }

  lemma NothingThere(g: Geometry, upb: pos, parts: Parts, order: seq<nat>, u: nat)
    requires PartsFit(g, upb, parts) && Placed(g) && Schedule(g, order)
    requires forall w :: w in Metadata(g, upb, parts, order) ==> !w.Covers(u)
    ensures Piece(g, upb, parts, u).None?
  {
    var a, b := GroupOf(g, upb, u), BlockOf(g, upb, u);
    RunCovers(g, upb, LogRecord(g, upb, parts), g.logagno, g.logAgbno, 1, u);
    MetadataHas(g, upb, parts, order, LogRecord(g, upb, parts));
    RunCovers(g, upb, RootChunk(g, upb, parts), 0, g.RootChunkAgbno(), g.ChunkBlocks(), u);
    MetadataHas(g, upb, parts, order, RootChunk(g, upb, parts));
    if a < |parts.heads| {
      assert IsHead(g, upb, parts, Head(g, upb, parts, a));
      RunCovers(g, upb, Head(g, upb, parts, a), a, 0, g.PreallocBlocks(), u);
      MetadataHas(g, upb, parts, order, Head(g, upb, parts, a));
    }
  }

  lemma LandedThree(was: Unit, a: Write, b: Write, c: Write, u: nat)
    ensures Landed(was, [a, b, c], u) ==
            if c.Covers(u) then c.Of(u) else if b.Covers(u) then b.Of(u) else if a.Covers(u) then a.Of(u) else was
  {
    assert [a, b, c] == [a, b] + [c] && [a, b] == [a] + [b];
    LandedConcat(was, [a, b], [c], u);
    LandedConcat(was, [a], [b], u);
    LandedOne(was, a, u);
    LandedOne(Landed(was, [a], u), b, u);
    LandedOne(Landed(was, [a, b], u), c, u);
  }

  lemma ClearingMeant(was: Unit, g: Geometry, upb: pos, whack: nat, units: nat, parts: Parts, u: nat)
    ensures var log := (g.logagno * g.agsize + g.logAgbno) * upb;
            var end := Quotient(units, upb) * upb;
            var tail := Quotient(Max(end - whack, 0), upb) * upb;
            Landed(was, Clearing(g, upb, whack, units, parts), u) ==
            if log <= u < log + g.logblocks * upb || u < Min(whack, end) || tail <= u < end then parts.zero else was
  {
    var log := UnitAt(g, upb, g.logagno, g.logAgbno);
    var end := Quotient(units, upb) * upb;
    var tail := Quotient(Max(end - whack, 0), upb) * upb;
    hide Landed;
    var first, last := Blank(parts, 0, Min(whack, end)), Blank(parts, tail, Max(end - tail, 0));
    LandedThree(was, first, last, Blank(parts, log, g.logblocks * upb), u);
  }

  /**
   The image a format leaves, unit by unit: the finished first unit, headers and roots, root chunk and log
   record each where the geometry puts them, zeroes over the rest of the log and both ends, and the rest of
   the device as it was.
   */
  lemma FormattedMeans(
      init: seq<Unit>, g: Geometry, upb: pos, whack: nat, parts: Parts, order: seq<nat>, u: nat)
    requires Formats(init, g, upb, parts, order) && u < |init|
    ensures Formatted(init, g, upb, whack, parts, order)[u] == Meant(init, g, upb, whack, parts, u)
  {
    hide Formatted, Finish, Clearing, Metadata, Piece, Landed;
    FinishChangesOne(init, g, upb, whack, parts, order, u);
    var first, rest := Clearing(g, upb, whack, |init|, parts), Metadata(g, upb, parts, order);
    SettledConcat(init, first, rest);
    ClearingMeant(init[u], g, upb, whack, |init|, parts, u);
    MetadataMeant(Landed(init[u], first, u), g, upb, parts, order, u);
  }

  /**
   How a finished first unit is told: neither zeroes nor the unit first written, which says that a
   format is in progress, is one.
   */
  ghost predicate Tells(parts: Parts, isFinished: Unit -> bool) {
    isFinished(parts.finished) && !isFinished(parts.zero)
    && (parts.heads != [] && parts.heads[0] != [] ==> !isFinished(parts.heads[0][0]))
  }

  /**
   Wherever a format is cut short, if the device was not finished before, a crash shows a finished
   first unit only when everything else the format writes is on the device as well.
   */
  lemma FinishedMeansFormatted(
      init: seq<Unit>, g: Geometry, upb: pos, whack: nat, parts: Parts, order: seq<nat>, isFinished: Unit -> bool,
      k: nat, img: seq<Unit>)
    requires Formats(init, g, upb, parts, order) && Tells(parts, isFinished) && !isFinished(init[0])
    requires k <= |FormatOps(g, upb, whack, |init|, parts, order)|
    requires Disk(init, []).Run(FormatOps(g, upb, whack, |init|, parts, order)[..k]).MayLeave(img)
    ensures isFinished(img[0]) ==> img == Formatted(init, g, upb, whack, parts, order)
  {
    var before := Before(g, upb, whack, |init|, parts, order);
    var flushed := Settled(init, before);
    var last := Finish(g, upb, parts);
    FormatPrefix(init, before, last, FormatOps(g, upb, whack, |init|, parts, order), k);
    hide Before, FormatOps, Finish, Settled;
    if k <= |before| {
      forall w | w in before[..k] && w.Covers(0)
        ensures !isFinished(w.Of(0))
      {
        FirstUnit(init, g, upb, whack, parts, order, w);
      }
    } else {
      HeadersLand(init, g, upb, whack, parts, order, 0);
      if isFinished(img[0]) {
        forall u | 0 <= u < |img|
          ensures img[u] == Formatted(init, g, upb, whack, parts, order)[u]
        {
          FinishChangesOne(init, g, upb, whack, parts, order, u);
        }
      }
    }
  }

  /**
   Whatever a crash leaves, wherever it comes, a finished first unit means a finished format, or that
   the device is as it was found.
   */
  ghost predicate Recognisable(
      init: seq<Unit>, g: Geometry, upb: pos, whack: nat, parts: Parts, order: seq<nat>, isFinished: Unit -> bool)
    requires Formats(init, g, upb, parts, order)
  {
    forall k, img ::
      && 0 <= k <= |FormatOps(g, upb, whack, |init|, parts, order)|
      && Disk(init, []).Run(FormatOps(g, upb, whack, |init|, parts, order)[..k]).MayLeave(img)
      && isFinished(img[0])
      ==> img == init || img == Formatted(init, g, upb, whack, parts, order)
  }

  /** The format changes something past the first unit, and does not finish with the one it found. */
  ghost predicate Another(init: seq<Unit>, g: Geometry, upb: pos, whack: nat, parts: Parts, order: seq<nat>)
    requires Formats(init, g, upb, parts, order)
  {
    && init[0] != parts.finished
    && exists u :: 0 < u < |init| && Formatted(init, g, upb, whack, parts, order)[u] != init[u]
  }

  /**
   Format over anything but the very filesystem being written: what a crash leaves is recognisably
   unfinished, or untouched, exactly when the device did not hold a finished filesystem before. If it
   did, its primary can be left over the new groups.
   */
  lemma RecognisableIff(
      init: seq<Unit>, g: Geometry, upb: pos, whack: nat, parts: Parts, order: seq<nat>, isFinished: Unit -> bool)
    requires Formats(init, g, upb, parts, order) && Tells(parts, isFinished)
    requires Another(init, g, upb, whack, parts, order)
    ensures Recognisable(init, g, upb, whack, parts, order, isFinished) <==> !isFinished(init[0])
  {
    var ops := FormatOps(g, upb, whack, |init|, parts, order);
    if isFinished(init[0]) {
      var k, img := OldOverNew(init, g, upb, whack, parts, order);
      assert isFinished(img[0]);
    } else {
      hide Formatted, FormatOps;
      forall k: nat, img |
        k <= |ops| && Disk(init, []).Run(ops[..k]).MayLeave(img) && isFinished(img[0])
        ensures img == Formatted(init, g, upb, whack, parts, order)
      {
        FinishedMeansFormatted(init, g, upb, whack, parts, order, isFinished, k, img);
      }
    }
  }

  /** Cut short before the first flush, everything written but with the first unit as it was found. */
  lemma OldOverNew(init: seq<Unit>, g: Geometry, upb: pos, whack: nat, parts: Parts, order: seq<nat>)
      returns (k: nat, img: seq<Unit>)
    requires Formats(init, g, upb, parts, order) && Another(init, g, upb, whack, parts, order)
    ensures k <= |FormatOps(g, upb, whack, |init|, parts, order)|
    ensures Disk(init, []).Run(FormatOps(g, upb, whack, |init|, parts, order)[..k]).MayLeave(img)
    ensures img[0] == init[0] && img != init && img != Formatted(init, g, upb, whack, parts, order)
  {
    var before := Before(g, upb, whack, |init|, parts, order);
    k := |before|;
    img := Settled(init, before)[0 := init[0]];
    assert before[..k] == before;
    OldFirstUnitMaySurvive(init, g, upb, whack, parts, order, k);
    var u :| 0 < u < |init| && Formatted(init, g, upb, whack, parts, order)[u] != init[u];
    hide Before, FormatOps, Formatted, Finish;
    FinishChangesOne(init, g, upb, whack, parts, order, 0);
    FinishChangesOne(init, g, upb, whack, parts, order, u);
    assert img[u] != init[u];
    assert Formatted(init, g, upb, whack, parts, order)[0] == parts.finished;
  }

  /** A format that has run to its end has left one image, whatever happens after. */
  lemma CompletedIsDurable(
      init: seq<Unit>, g: Geometry, upb: pos, whack: nat, parts: Parts, order: seq<nat>, img: seq<Unit>)
    requires Formats(init, g, upb, parts, order)
    ensures Disk(init, []).Run(FormatOps(g, upb, whack, |init|, parts, order)).MayLeave(img)
            <==> img == Formatted(init, g, upb, whack, parts, order)
  {
    var ops := FormatOps(g, upb, whack, |init|, parts, order);
    assert ops[..|ops|] == ops;
    FormatPrefix(init, Before(g, upb, whack, |init|, parts, order), Finish(g, upb, parts), ops, |ops|);
  }

  /**
   The first unit found on the device is safe from nothing: until the first flush a crash may leave
   it over everything else written so far. A device that held a finished filesystem can show that
   one's primary over the new groups, so the protocol only speaks for the unit the format finishes.
   */
  lemma OldFirstUnitMaySurvive(
      init: seq<Unit>, g: Geometry, upb: pos, whack: nat, parts: Parts, order: seq<nat>, k: nat)
    requires Formats(init, g, upb, parts, order)
    requires k <= |Before(g, upb, whack, |init|, parts, order)|
    ensures var before := Before(g, upb, whack, |init|, parts, order);
            Disk(init, []).Run(FormatOps(g, upb, whack, |init|, parts, order)[..k])
            .MayLeave(Settled(init, before[..k])[0 := init[0]])
  {
    var before := Before(g, upb, whack, |init|, parts, order);
    var ops := FormatOps(g, upb, whack, |init|, parts, order);
    FormatPrefix(init, before, Finish(g, upb, parts), ops, k);
    hide Before, FormatOps, Finish;
    forall u | 0 < u < |init| && Settled(init, before[..k])[u] != init[u]
      ensures exists w :: w in before[..k] && w.Covers(u) && Settled(init, before[..k])[u] == w.Of(u)
    {
      var w := LandedFrom(init[u], before[..k], u);
    }
  }

  lemma {:induction false} LandedFrom(was: Unit, ws: seq<Write>, u: nat) returns (w: Write)
    requires Landed(was, ws, u) != was
    ensures w in ws && w.Covers(u) && Landed(was, ws, u) == w.Of(u)
  {
    w := ws[|ws| - 1];
    if !w.Covers(u) {
      w := LandedFrom(was, ws[..|ws| - 1], u);
    }
  }

  lemma OneByOne(a: seq<Op>, b: seq<Op>, c: seq<Op>, d: seq<Op>, e: seq<Op>)
    ensures a + b + c + d + e == a + (b + c + d + e)
  {
  }

  // ---------------------------------------------------------------------------------------
  // The format, step by step.

  class Target {
    var disk: Disk
    ghost var ops: seq<Op>

    constructor (img: seq<Unit>)
      ensures disk == Disk(img, []) && ops == []
    {
      disk := Disk(img, []);
      ops := [];
    }

    method WriteAt(w: Write)
      modifies this
      ensures disk == old(disk).Step(Issue(w)) && ops == old(ops) + [Issue(w)]
    {
      disk := Disk(disk.durable, disk.pending + [w]);
      ops := ops + [Issue(w)];
    }

    method FlushAll()
      modifies this
      ensures disk == old(disk).Step(Flush) && ops == old(ops) + [Flush]
    {
      disk := Disk(Settled(disk.durable, disk.pending), []);
      ops := ops + [Flush];
    }

    /** The groups, in the order the scheduler takes them. */
    method WriteGroups(g: Geometry, upb: pos, parts: Parts, order: seq<nat>)
      requires |parts.heads| == g.agcount && Schedule(g, order)
      modifies this
      ensures ops == old(ops) + Issues(Heads(g, upb, parts, order))
      ensures disk == Disk(old(disk).durable, old(disk).pending + Heads(g, upb, parts, order))
    {
      ghost var heads := Heads(g, upb, parts, order);
      hide Head;
      for i := 0 to |order|
        invariant ops == old(ops) + Issues(heads[..i])
        invariant disk == Disk(old(disk).durable, old(disk).pending + heads[..i])
      {
        WriteAt(Head(g, upb, parts, order[i]));
        assert heads[..i + 1] == heads[..i] + [heads[i]];
        assert Issues(heads[..i + 1]) == Issues(heads[..i]) + [Issue(heads[i])];
      }
      assert heads[..|order|] == heads;
    }

    /** Zero both ends of the device, and the log. */
    method Clear(g: Geometry, upb: pos, whack: nat, parts: Parts)
      modifies this
      ensures var clearing := Clearing(g, upb, whack, |old(disk).durable|, parts);
              ops == old(ops) + Issues(clearing) && disk == Disk(old(disk).durable, old(disk).pending + clearing)
    {
      hide Blank, UnitAt;
      var end := |disk.durable| / upb * upb;
      WriteAt(Blank(parts, 0, Min(whack, end)));
      var tail := Max(end - whack, 0) / upb * upb;
      WriteAt(Blank(parts, tail, Max(end - tail, 0)));
      WriteAt(Blank(parts, UnitAt(g, upb, g.logagno, g.logAgbno), g.logblocks * upb));
    }

    /** The log record, the groups and the root chunk. */
    method WriteMetadata(g: Geometry, upb: pos, parts: Parts, order: seq<nat>)
      requires |parts.heads| == g.agcount && Schedule(g, order)
      modifies this
      ensures var metadata := Metadata(g, upb, parts, order);
              ops == old(ops) + Issues(metadata) && disk == Disk(old(disk).durable, old(disk).pending + metadata)
    {
      hide Heads, LogRecord, RootChunk, Schedule;
      WriteAt(LogRecord(g, upb, parts));
      WriteGroups(g, upb, parts, order);
      WriteAt(RootChunk(g, upb, parts));
    }

    /** Everything before the first flush. */
    method WriteUnfinished(g: Geometry, upb: pos, whack: nat, parts: Parts, order: seq<nat>)
      requires |parts.heads| == g.agcount && Schedule(g, order)
      modifies this
      ensures var before := Before(g, upb, whack, |old(disk).durable|, parts, order);
              ops == old(ops) + Issues(before) && disk == Disk(old(disk).durable, old(disk).pending + before)
    {
      Clear(g, upb, whack, parts);
      WriteMetadata(g, upb, parts, order);
      hide Clearing, Metadata;
    }

    /** A whole format of a device with nothing pending. */
    method Format(g: Geometry, upb: pos, whack: nat, parts: Parts, order: seq<nat>)
      requires Formats(disk.durable, g, upb, parts, order) && disk.pending == []
      modifies this
      ensures ops == old(ops) + FormatOps(g, upb, whack, |old(disk).durable|, parts, order)
      ensures disk == Disk(Formatted(old(disk).durable, g, upb, whack, parts, order), [])
    {
      ghost var init, before := disk.durable, Before(g, upb, whack, |disk.durable|, parts, order);
      var last := Finish(g, upb, parts);
      assert Issues([last]) == [Issue(last)] && [] + [last] == [last] && [] + before == before;
      OneByOne(ops, Issues(before), [Flush], [Issue(last)], [Flush]);
      hide Before, Finish, Settled, Placed, PartsFit, Schedule, Issues, CeilDiv;
      WriteUnfinished(g, upb, whack, parts, order);
      FlushAll();
      WriteAt(last);
      FlushAll();
    }
  }
}
