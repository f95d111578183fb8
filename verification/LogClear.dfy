/** Rewriting a whole log in a new cycle, and what the search makes of the result. */
module LogClear {
  import opened Prelude
  import opened Bytes
  import opened Device
  import opened LogFinder
  import opened LogRecord
  import opened LogTheorems
  import opened LogReader
  import opened LogWriter
  import Geometry

  const INIT_CYCLE: nat := 1
  /** The largest stripe unit a log may have. */
  const MAX_SUNIT: nat := 256 * 1024

  // ---------------------------------------------------------------------------------------
  // The cleared log, block by block.

  function FirstTail(bbs: nat, sunit: nat, cycle: nat): nat
    requires 1 <= cycle < TWO_32 && RecordBbs(sunit) <= bbs < TWO_32
  {
    if cycle == INIT_CYCLE then Lsn(cycle, 0) else Lsn(cycle - 1, bbs - RecordBbs(sunit))
  }

  /** Block `k` of a log of `bbs` blocks cleared at `cycle`. */
  ghost predicate ClearedBlock(b: seq<byte>, k: nat, bbs: nat, uuid: seq<byte>, sunit: nat, cycle: nat)
    requires 1 <= cycle < TWO_32 && k < bbs < TWO_32 && RecordBbs(sunit) <= REC_BBS <= bbs
  {
    if k < RecordBbs(sunit) then
      RecordBlock(b, k, uuid, sunit, Lsn(cycle, 0), FirstTail(bbs, sunit, cycle))
    else if cycle == INIT_CYCLE || k < REC_BBS then ZeroBlock(b)
    else
      var base := k / REC_BBS * REC_BBS;
      var rlen := TileLen(bbs, base);
      RecordBlock(b, k - base, uuid, rlen * BBSIZE, Lsn(cycle - 1, base), Lsn(cycle - 1, base - rlen))
  }

  ghost predicate ClearedBytes(log: seq<byte>, bbs: nat, uuid: seq<byte>, sunit: nat, cycle: nat) {
    && 1 <= cycle < TWO_32 && TOTAL_REC_BBS <= bbs < TWO_32 && sunit <= MAX_SUNIT
    && |log| == bbs * BBSIZE && RecordBbs(sunit) <= REC_BBS
    && forall k :: 0 <= k < bbs ==> ClearedBlock(Bb(log, k), k, bbs, uuid, sunit, cycle)
  }

  /** The number at byte 24 of the log: a cycle above, a block below. */
  predicate TailIs(log: seq<byte>, bbs: nat, sunit: nat, cycle: nat)
    requires |log| >= 32
  {
    var tail := Be64(log, 24);
    if cycle == 1 then tail == 0x1_0000_0000
    else tail / 0x1_0000_0000 == cycle - 1 && tail % 0x1_0000_0000 + Max(2, CeilDiv(sunit, 512)) == bbs
  }

  lemma FirstTailIs(log: seq<byte>, bbs: nat, uuid: seq<byte>, sunit: nat, cycle: nat)
    requires ClearedBytes(log, bbs, uuid, sunit, cycle)
    ensures |log| == bbs * BBSIZE >= 32 && TailIs(log, bbs, sunit, cycle)
  {
    assert ClearedBlock(Bb(log, 0), 0, bbs, uuid, sunit, cycle);
    RecordLengthsAgree(sunit);
    hide CeilDiv;
    SameNumberThere(Bb(log, 0), log, 24);
  }

  lemma SameNumberThere(a: seq<byte>, b: seq<byte>, off: nat)
    requires off + 8 <= |a| <= |b| && a == b[..|a|]
    ensures Be64(a, off) == Be64(b, off)
  {
    SameField(a, b, off);
    SameField(a, b, off + 4);
  }

  lemma ClearedIsLong(log: seq<byte>, bbs: nat, uuid: seq<byte>, sunit: nat, cycle: nat)
    requires ClearedBytes(log, bbs, uuid, sunit, cycle)
    ensures bbs >= TOTAL_REC_BBS && 1 <= cycle
  {
  }

  lemma ClearedLength(log: seq<byte>, bbs: nat, uuid: seq<byte>, sunit: nat, cycle: nat)
    requires ClearedBytes(log, bbs, uuid, sunit, cycle)
    ensures |log| == bbs * BBSIZE
  {
  }

  // ---------------------------------------------------------------------------------------
  // What the search reads of a record's blocks.

  lemma LowWord(b: seq<byte>, off: nat)
    requires off + 8 <= |b|
    ensures Be32(b, off + 4) == Be64(b, off) % TWO_32
  {
  }

  /** Both block counts a header decodes to, from the three fields the writer gives it. */
  lemma HeaderCounts(h: Block, sunit: nat)
    requires h.version == 2 && h.size == Max(sunit, HEADER_CYCLE_SIZE)
    requires h.len == Max(2 * BBSIZE, sunit) - Hdrs(sunit) * BBSIZE
    ensures Version2(h) && h.RecordLen() == RecordBbs(sunit) && h.HeaderBlocks() == Hdrs(sunit)
  {
    RecordLengthsAgree(sunit);
  }

  lemma DecodesHeader(b: seq<byte>, uuid: seq<byte>, sunit: nat, lsn: nat, tail: nat)
    requires HeaderBlock(b, uuid, sunit, lsn, tail)
    ensures var h := Decode(b);
            && h.IsHeader() && h.cycle == lsn / TWO_32 && Version2(h) && h.numLogops == 1
            && h.RecordLen() == RecordBbs(sunit) && h.HeaderBlocks() == Hdrs(sunit)
            && h.tailBlock == tail % TWO_32
  {
    var h := Decode(b);
    RecordLengthsAgree(sunit);
    HeaderCounts(h, sunit);
    LowWord(b, 24);
  }

  lemma DecodesRest(b: seq<byte>, k: nat, uuid: seq<byte>, sunit: nat, lsn: nat, tail: nat)
    requires k > 0 && RecordBlock(b, k, uuid, sunit, lsn, tail)
    ensures Decode(b).word == lsn / TWO_32
    ensures k == Hdrs(sunit) ==> Decode(b).IsUnmount()
  {
  }

  /** The record's bytes are at block `i`. */
  ghost predicate RecordAt(bytes: seq<byte>, i: nat, uuid: seq<byte>, sunit: nat, lsn: nat, tail: nat) {
    && BBSIZE * (i + RecordBbs(sunit)) <= |bytes|
    && forall x :: i <= x < i + RecordBbs(sunit) ==> RecordBlock(Bb(bytes, x), x - i, uuid, sunit, lsn, tail)
  }

  /** A record in the bytes is a whole lone unmount record to the search. */
  lemma RecordIsUnmount(
      bytes: seq<byte>, log: Log, i: nat, uuid: seq<byte>, sunit: nat, lsn: nat, tail: nat)
    requires Shows(bytes, log) && |bytes| == |log| * BBSIZE
    requires RecordAt(bytes, i, uuid, sunit, lsn, tail) && RecordBbs(sunit) <= REC_BBS
    ensures UnmountRecord(log, i, RecordBbs(sunit), lsn / TWO_32)
  {
    var len, cycle := RecordBbs(sunit), lsn / TWO_32;
    RecordLengthsAgree(sunit);
    assert RecordBlock(Bb(bytes, i), 0, uuid, sunit, lsn, tail);
    DecodesHeader(Bb(bytes, i), uuid, sunit, lsn, tail);
    forall x | i < x < i + len
      ensures log[x].word == cycle && (x - i == Hdrs(sunit) ==> log[x].IsUnmount())
    {
      DecodesRest(Bb(bytes, x), x - i, uuid, sunit, lsn, tail);
    }
    HeadersFit(sunit);
  }

  lemma HeadersFit(sunit: nat)
    ensures 1 <= Hdrs(sunit) < RecordBbs(sunit)
  {
  }

  lemma ZeroIsZero(b: seq<byte>)
    requires ZeroBlock(b)
    ensures Decode(b).word == 0
  {
  }

  /** Only a log of one block more than whole tiles has a last tile too short for a record. */
  lemma TileFits(n: nat, t: nat)
    requires REC_BBS * t < n && n % REC_BBS != 1
    ensures TileLen(n, REC_BBS * t) >= 2
    ensures RecordBbs(TileLen(n, REC_BBS * t) * BBSIZE) == TileLen(n, REC_BBS * t)
  {
    if n == REC_BBS * t + 1 {
      DivModUnique(n, REC_BBS, t, 1);
    }
    RecordLengthsAgree(TileLen(n, REC_BBS * t) * BBSIZE);
  }

  lemma TileBlock(b: seq<byte>, x: nat, t: nat, bbs: nat, uuid: seq<byte>, sunit: nat, cycle: nat)
    requires 2 <= cycle < TWO_32 && x < bbs < TWO_32 && RecordBbs(sunit) <= REC_BBS <= bbs
    requires 1 <= t && REC_BBS * t <= x < REC_BBS * (t + 1)
    ensures var base := REC_BBS * t; var rlen := TileLen(bbs, base);
            ClearedBlock(b, x, bbs, uuid, sunit, cycle) ==
            RecordBlock(b, x - base, uuid, rlen * BBSIZE, Lsn(cycle - 1, base), Lsn(cycle - 1, base - rlen))
  {
    assert x / REC_BBS * REC_BBS == REC_BBS * t;
  }

  lemma TileIsUnmount(bytes: seq<byte>, log: Log, uuid: seq<byte>, sunit: nat, cycle: nat, t: nat)
    requires Shows(bytes, log) && ClearedBytes(bytes, |log|, uuid, sunit, cycle)
    requires cycle >= 2 && |log| % REC_BBS != 1 && 1 <= t && REC_BBS * t < |log|
    ensures UnmountRecord(log, REC_BBS * t, TileLen(|log|, REC_BBS * t), cycle - 1)
  {
    var base := REC_BBS * t;
    var rlen := TileLen(|log|, base);
    TileFits(|log|, t);
    var lsn, tail := Lsn(cycle - 1, base), Lsn(cycle - 1, base - rlen);
    forall x | base <= x < base + rlen
      ensures RecordBlock(Bb(bytes, x), x - base, uuid, rlen * BBSIZE, lsn, tail)
    {
      assert ClearedBlock(Bb(bytes, x), x, |log|, uuid, sunit, cycle);
      TileBlock(Bb(bytes, x), x, t, |log|, uuid, sunit, cycle);
    }
    assert RecordAt(bytes, base, uuid, rlen * BBSIZE, lsn, tail);
    RecordIsUnmount(bytes, log, base, uuid, rlen * BBSIZE, lsn, tail);
  }

  /** Head, tail and cycle of a log cleared at `cycle`. */
  function ClearedState(sunit: nat, cycle: nat): LogState {
    var head := if cycle == INIT_CYCLE || RecordBbs(sunit) == REC_BBS then RecordBbs(sunit) else 0;
    LogState(head, head, cycle)
  }

  /** What the clearer leaves at `cycle`, the search calls clean at exactly `cycle`. */
  lemma ClearedIsFoundClean(bytes: seq<byte>, log: Log, uuid: seq<byte>, sunit: nat, cycle: nat)
    requires Shows(bytes, log) && ClearedBytes(bytes, |log|, uuid, sunit, cycle)
    requires cycle < HEADER_MAGIC && (cycle >= 2 ==> |log| % REC_BBS != 1)
    ensures FindTail(log) == Ok(ClearedState(sunit, cycle))
  {
    var bbs, len := |log|, RecordBbs(sunit);
    RecordLengthsAgree(sunit);
    var lsn, tail := Lsn(cycle, 0), FirstTail(bbs, sunit, cycle);
    assert RecordAt(bytes, 0, uuid, sunit, lsn, tail);
    RecordIsUnmount(bytes, log, 0, uuid, sunit, lsn, tail);
    forall k | len <= k < bbs && (cycle == INIT_CYCLE || k < REC_BBS)
      ensures log[k].word == 0
    {
      assert ClearedBlock(Bb(bytes, k), k, bbs, uuid, sunit, cycle);
      ZeroIsZero(Bb(bytes, k));
    }
    if cycle == INIT_CYCLE {
      FreshIsClean(log, len);
    } else {
      forall t | 1 <= t && REC_BBS * t < bbs
        ensures UnmountRecord(log, REC_BBS * t, TileLen(bbs, REC_BBS * t), cycle - 1)
      {
        TileIsUnmount(bytes, log, uuid, sunit, cycle, t);
      }
      ClearedIsClean(log, len, cycle);
    }
  }

  // ---------------------------------------------------------------------------------------
  // Writing it.

  /** A record padded to whole filesystem blocks, in bytes. */
  function Padded(sunit: nat, blocksize: pos): nat {
    CeilDiv(RecordBbs(sunit) * BBSIZE, blocksize) * blocksize
  }

  /** The device answers everything rewriting the log asks of it. */
  ghost predicate Ready(dev: MemDevice, start: nat, bbs: nat, blocksize: pos, sunit: nat) {
    && dev.Accepts(start, bbs * BBSIZE)
    && AcceptsLog(dev, start, bbs * BBSIZE)
    && AcceptsLog(dev, start, Padded(sunit, blocksize))
  }

  /**
   The device holds a log of whole `blocksize` blocks at `start`, and if it refuses anything but
   whole sectors, then its sectors divide the block.
   */
  predicate TakesLog(dev: MemDevice, start: nat, bbs: nat, blocksize: pos) {
    && start + bbs * BBSIZE <= dev.size < TWO_64
    && start % blocksize == 0 && bbs * BBSIZE % blocksize == 0
    && (dev.strict ==> blocksize % dev.logical == 0)
  }

  lemma BlocksAreSectors(n: nat, blocksize: pos, sector: pos)
    requires n % blocksize == 0 && blocksize % sector == 0
    ensures n % sector == 0
  {
    var k, c := n / blocksize, blocksize / sector;
    assert n == k * c * sector;
    MulMod(k * c, sector);
  }

  /** Every piece of a log of whole blocks is whole blocks at a block boundary. */
  lemma PieceIsBlocks(start: nat, total: nat, at: nat, n: nat, blocksize: pos)
    requires start % blocksize == 0 && total % blocksize == 0 && WRITE_CHUNK % blocksize == 0
    requires at % WRITE_CHUNK == 0 && (n == WRITE_CHUNK || at + n == total)
    ensures (start + at) % blocksize == 0 && n % blocksize == 0
  {
    BlocksAreSectors(at, WRITE_CHUNK, blocksize);
    ModAdd(start, at, blocksize);
    ModAdd(total, at, blocksize);
  }

  lemma AcceptsWholeBlocks(dev: MemDevice, start: nat, total: nat, blocksize: pos)
    requires start + total <= dev.size < TWO_64 && WRITE_CHUNK % blocksize == 0
    requires start % blocksize == 0 && total % blocksize == 0
    requires dev.strict ==> blocksize % dev.logical == 0
    ensures AcceptsLog(dev, start, total)
  {
    forall at: nat, n: nat |
      at % WRITE_CHUNK == 0 && ((n == WRITE_CHUNK && at + n <= total) || at + n == total)
      ensures AcceptsPiece(dev, start, at, n)
    {
      PieceIsBlocks(start, total, at, n, blocksize);
      if dev.strict {
        BlocksAreSectors(start + at, blocksize, dev.logical);
        BlocksAreSectors(n, blocksize, dev.logical);
      }
    }
  }

  /**
   Rewriting the log only ever asks for whole filesystem blocks at block boundaries: a device
   that holds the log and enforces no more than that answers all of it.
   */
  lemma TakesLogIsReady(dev: MemDevice, start: nat, bbs: nat, blocksize: pos, sunit: nat)
    requires TakesLog(dev, start, bbs, blocksize) && WRITE_CHUNK % blocksize == 0
    requires TOTAL_REC_BBS <= bbs && sunit <= MAX_SUNIT && blocksize <= Geometry.MAX_BLOCKSIZE
    ensures Ready(dev, start, bbs, blocksize, sunit)
  {
    AcceptsWholeBlocks(dev, start, bbs * BBSIZE, blocksize);
    assert AcceptsPiece(dev, start, 0, bbs * BBSIZE);
    RecordLengthsAgree(sunit);
    PadLength(RecordBbs(sunit) * BBSIZE, blocksize);
    AcceptsWholeBlocks(dev, start, Padded(sunit, blocksize), blocksize);
  }

  /** The first `k` blocks of the cleared log. */
  ghost predicate ClearedPrefix(data: seq<byte>, k: nat, bbs: nat, uuid: seq<byte>, sunit: nat, cycle: nat) {
    && 1 <= cycle < TWO_32 && TOTAL_REC_BBS <= bbs < TWO_32 && RecordBbs(sunit) <= REC_BBS
    && |data| == k * BBSIZE && k <= bbs
    && forall x :: 0 <= x < k ==> ClearedBlock(Bb(data, x), x, bbs, uuid, sunit, cycle)
  }

  lemma AppendedBlocks(data: seq<byte>, more: seq<byte>, k: nat, n: nat)
    requires |data| == k * BBSIZE && |more| == n * BBSIZE
    ensures forall x :: 0 <= x < k ==> Bb(data + more, x) == Bb(data, x)
    ensures forall x :: k <= x < k + n ==> Bb(data + more, x) == Bb(more, x - k)
  {
    forall x | 0 <= x < k
      ensures Bb(data + more, x) == Bb(data, x)
    {
    }
    forall x | k <= x < k + n
      ensures Bb(data + more, x) == Bb(more, x - k)
    {
    }
  }

  lemma PrefixStarts(rec: seq<byte>, bbs: nat, uuid: seq<byte>, sunit: nat, cycle: nat)
    requires 1 <= cycle < TWO_32 && TOTAL_REC_BBS <= bbs < TWO_32 && RecordBbs(sunit) <= REC_BBS
    requires IsRecord(rec, uuid, sunit, Lsn(cycle, 0), FirstTail(bbs, sunit, cycle))
    ensures ClearedPrefix(rec, RecordBbs(sunit), bbs, uuid, sunit, cycle)
  {
  }

  lemma PrefixTakesZeroes(data: seq<byte>, k: nat, n: nat, bbs: nat, uuid: seq<byte>, sunit: nat, cycle: nat)
    requires ClearedPrefix(data, k, bbs, uuid, sunit, cycle) && RecordBbs(sunit) <= k && k + n <= bbs
    requires cycle == INIT_CYCLE || k + n <= REC_BBS
    ensures ClearedPrefix(data + Zeroes(n * BBSIZE), k + n, bbs, uuid, sunit, cycle)
  {
    AppendedBlocks(data, Zeroes(n * BBSIZE), k, n);
  }

  lemma PrefixTakesTile(data: seq<byte>, rec: seq<byte>, t: nat, bbs: nat, uuid: seq<byte>, sunit: nat, cycle: nat)
    requires ClearedPrefix(data, REC_BBS * t, bbs, uuid, sunit, cycle) && cycle >= 2
    requires 1 <= t && REC_BBS * t < bbs
    requires var base := REC_BBS * t; var rlen := TileLen(bbs, base);
             RecordBbs(rlen * BBSIZE) == rlen &&
             IsRecord(rec, uuid, rlen * BBSIZE, Lsn(cycle - 1, base), Lsn(cycle - 1, base - rlen))
    ensures ClearedPrefix(data + rec, REC_BBS * t + TileLen(bbs, REC_BBS * t), bbs, uuid, sunit, cycle)
  {
    var base := REC_BBS * t;
    var rlen := TileLen(bbs, base);
    AppendedBlocks(data, rec, base, rlen);
    forall x | base <= x < base + rlen
      ensures ClearedBlock(Bb(data + rec, x), x, bbs, uuid, sunit, cycle)
    {
      TileBlock(Bb(rec, x - base), x, t, bbs, uuid, sunit, cycle);
    }
  }

  /** One filler record, at block `512 t`. */
  method PushTile(
      out: LogWriter, blk: nat, rlen: nat, bbs: nat, uuid: seq<byte>, ghost sunit: nat, cycle: nat, ghost t: nat)
      returns (r: Result<()>)
    requires out.Valid() && |uuid| == 16 && cycle >= 2
    requires 1 <= t && blk == REC_BBS * t < bbs && rlen == TileLen(bbs, blk)
    requires ClearedPrefix(out.pushed, blk, bbs, uuid, sunit, cycle)
    modifies out, out.dev
    ensures out.InStep() && |out.pushed| <= bbs * BBSIZE
    ensures r.Ok? ==> out.Valid() && ClearedPrefix(out.pushed, blk + rlen, bbs, uuid, sunit, cycle) && rlen >= 2
    ensures r.Err? ==> r.error.FromDevice() || (r.error == Unsupported && rlen == 1)
    ensures out.room.Some? && (blk + rlen) * BBSIZE <= out.room.value && rlen >= 2 ==> r.Ok?
    ensures rlen == 1 ==> r == Err(Unsupported)
  {
    hide ClearedPrefix, IsRecord, Lsn, Written, AcceptsLog;
    TileBounds(out.pushed, blk, bbs, uuid, sunit, cycle);
    var rec := TileRecord(blk, rlen, uuid, cycle);
    if |rec| != rlen * BBSIZE {
      return Err(Unsupported);
    }
    PrefixTakesTile(out.pushed, rec, t, bbs, uuid, sunit, cycle);
    r := out.Push(rec);
  }

  lemma TileBounds(data: seq<byte>, blk: nat, bbs: nat, uuid: seq<byte>, sunit: nat, cycle: nat)
    requires ClearedPrefix(data, blk, bbs, uuid, sunit, cycle) && REC_BBS <= blk < bbs
    ensures bbs < TWO_32 && cycle < TWO_32 && |data| == blk * BBSIZE
    ensures TileLen(bbs, blk) <= blk && blk + TileLen(bbs, blk) <= bbs
  {
  }

  /** A record of the cycle before, `rlen` blocks long unless that is too short for one. */
  method TileRecord(blk: nat, rlen: nat, uuid: seq<byte>, cycle: nat) returns (rec: seq<byte>)
    requires |uuid| == 16 && 2 <= cycle < TWO_32 && 1 <= rlen <= REC_BBS <= blk && blk + rlen < TWO_32
    ensures rlen >= 2 <==> |rec| == rlen * BBSIZE
    ensures rlen >= 2 ==> RecordBbs(rlen * BBSIZE) == rlen
    ensures IsRecord(rec, uuid, rlen * BBSIZE, Lsn(cycle - 1, blk), Lsn(cycle - 1, blk - rlen))
  {
    hide Lsn, IsRecord;
    var a := Record(uuid, rlen * BBSIZE, Lsn(cycle - 1, blk), Lsn(cycle - 1, blk - rlen));
    rec := a[..];
    TileLength(rec, rlen, uuid, Lsn(cycle - 1, blk), Lsn(cycle - 1, blk - rlen));
  }

  lemma TileLength(rec: seq<byte>, rlen: nat, uuid: seq<byte>, lsn: nat, tail: nat)
    requires IsRecord(rec, uuid, rlen * BBSIZE, lsn, tail) && 1 <= rlen <= REC_BBS
    ensures rlen >= 2 <==> |rec| == rlen * BBSIZE
    ensures rlen >= 2 ==> RecordBbs(rlen * BBSIZE) == rlen
  {
    RecordLengthsAgree(rlen * BBSIZE);
  }

  lemma LastTile(bbs: nat, t: nat)
    requires REC_BBS * t < bbs
    ensures var rlen := TileLen(bbs, REC_BBS * t);
            && (rlen < REC_BBS ==> REC_BBS * t + rlen == bbs && bbs % REC_BBS == rlen)
            && (rlen == REC_BBS ==> REC_BBS * t + rlen == REC_BBS * (t + 1))
  {
    if bbs - REC_BBS * t < REC_BBS {
      DivModUnique(bbs, REC_BBS, t, bbs - REC_BBS * t);
    }
  }

  /** The filler records, from block 512 to the end. */
  method PushTiles(out: LogWriter, bbs: nat, uuid: seq<byte>, ghost sunit: nat, cycle: nat) returns (r: Result<()>)
    requires out.Valid() && |uuid| == 16 && cycle >= 2
    requires ClearedPrefix(out.pushed, REC_BBS, bbs, uuid, sunit, cycle)
    modifies out, out.dev
    ensures out.InStep() && |out.pushed| <= bbs * BBSIZE
    ensures r.Ok? ==> out.Valid() && ClearedPrefix(out.pushed, bbs, bbs, uuid, sunit, cycle) && bbs % REC_BBS != 1
    ensures r.Err? ==> r.error.FromDevice() || (r.error == Unsupported && bbs % REC_BBS == 1)
    ensures out.room.Some? && bbs * BBSIZE <= out.room.value ==>
              if bbs % REC_BBS != 1 then r.Ok? else r == Err(Unsupported)
  {
    var blk: nat := REC_BBS;
    var rlen: nat := Min(bbs - blk, REC_BBS);
    ghost var t: nat := 1;
    while blk < bbs
      invariant out.Valid() && ClearedPrefix(out.pushed, blk, bbs, uuid, sunit, cycle) && blk <= bbs
      invariant blk < bbs ==> 1 <= t && blk == REC_BBS * t && rlen == TileLen(bbs, blk)
      invariant blk == bbs ==> bbs % REC_BBS != 1
      decreases bbs - blk
    {
      LastTile(bbs, t);
      MulMod(t + 1, REC_BBS);
      var _ :- PushTile(out, blk, rlen, bbs, uuid, sunit, cycle, t);
      blk := blk + rlen;
      rlen := Min(bbs - blk, rlen);
      t := t + 1;
    }
    r := Ok(());
  }

  lemma ZeroedThenWritten(base: seq<byte>, start: nat, first: seq<byte>, pad: nat, total: nat)
    requires |first| + pad <= total && start + total <= |base| && first != []
    ensures Written(Splice(base, start, Zeroes(total)), start, first + Zeroes(pad)) ==
            Splice(base, start, first + Zeroes(total - |first|))
  {
  }

  lemma WrittenIs(base: seq<byte>, start: nat, data: seq<byte>)
    requires data != [] && start + |data| <= |base|
    ensures Written(base, start, data) == Splice(base, start, data)
  {
  }

  /** A first record and zeroes are a log cleared at cycle 1. */
  lemma FreshBytes(first: seq<byte>, bbs: nat, uuid: seq<byte>, sunit: nat)
    requires TOTAL_REC_BBS <= bbs < TWO_32 && sunit <= MAX_SUNIT
    requires IsRecord(first, uuid, sunit, Lsn(1, 0), Lsn(1, 0))
    ensures |first| <= bbs * BBSIZE && ClearedBytes(first + Zeroes(bbs * BBSIZE - |first|), bbs, uuid, sunit, 1)
  {
    RecordLengthsAgree(sunit);
    PrefixStarts(first, bbs, uuid, sunit, 1);
    PrefixTakesZeroes(first, RecordBbs(sunit), bbs - RecordBbs(sunit), bbs, uuid, sunit, 1);
  }

  lemma FirstFits(first: seq<byte>, uuid: seq<byte>, sunit: nat)
    requires IsRecord(first, uuid, sunit, Lsn(1, 0), Lsn(1, 0)) && sunit <= MAX_SUNIT
    ensures 0 < |first| == RecordBbs(sunit) * BBSIZE <= REC_BBS * BBSIZE
  {
    RecordLengthsAgree(sunit);
  }

  lemma RecordFits(rec: seq<byte>, uuid: seq<byte>, sunit: nat, blocksize: nat)
    requires IsRecord(rec, uuid, sunit, Lsn(1, 0), Lsn(1, 0))
    requires 2 * BBSIZE <= blocksize <= Geometry.MAX_BLOCKSIZE && blocksize % BBSIZE == 0 && sunit <= blocksize
    ensures 0 < |rec| <= blocksize
  {
    RecordLengthsAgree(sunit);
  }

  lemma SameAll(flat: seq<byte>, offset: nat, len: nat)
    ensures SameBut(flat, flat, offset, len)
  {
  }

  /** Write the first record, padded to whole filesystem blocks. */
  method WriteFirst(dev: MemDevice, start: nat, blocksize: pos, first: seq<byte>)
      returns (r: Result<()>, ghost pad: nat)
    requires dev.Valid() && 0 < |first| <= REC_BBS * BBSIZE && WRITE_CHUNK % blocksize == 0
    modifies dev
    ensures dev.Valid() && pad <= blocksize && SameBut(old(dev.Contents()), dev.Contents(), start, |first| + pad)
    ensures r.Ok? && start + |first| + pad <= dev.size ==>
              dev.Contents() == Splice(old(dev.Contents()), start, first + Zeroes(pad))
    ensures r.Err? ==> r.error.FromDevice()
    ensures AcceptsLog(dev, start, CeilDiv(|first|, blocksize) * blocksize) ==> r.Ok?
  {
    hide Splice, AcceptsLog, SameBut, Written, CeilDiv, Zeroes;
    pad := 0;
    ghost var total: nat := CeilDiv(|first|, blocksize) * blocksize;
    var out := new LogWriter(dev, start, if AcceptsLog(dev, start, total) then Some(total) else None);
    PadLength(|first|, blocksize);
    r := out.Push(first);
    if r.Err? {
      WrittenIsWithin(out.base, start, out.pushed[..out.at], |first|);
      return;
    }
    assert out.pushed == first && out.at == 0;
    out.PadToBlock(blocksize);
    pad := |out.pushed| - |first|;
    r := out.Finish();
    if r.Ok? {
      WrittenIs(out.base, start, out.pushed);
    }
  }

  /** Zeroes where the log is, then its first record: cycle 1. */
  method ClearInit(dev: MemDevice, start: nat, bbs: nat, blocksize: pos, sunit: nat, uuid: seq<byte>, first: seq<byte>)
      returns (r: Result<()>, ghost log: seq<byte>)
    requires dev.Valid() && TOTAL_REC_BBS <= bbs < TWO_32 && sunit <= MAX_SUNIT
    requires blocksize <= Geometry.MAX_BLOCKSIZE && WRITE_CHUNK % blocksize == 0
    requires IsRecord(first, uuid, sunit, Lsn(1, 0), Lsn(1, 0))
    modifies dev
    ensures dev.Valid() && SameBut(old(dev.Contents()), dev.Contents(), start, bbs * BBSIZE)
    ensures r.Ok? ==> start + bbs * BBSIZE <= dev.size && ClearedBytes(log, bbs, uuid, sunit, 1)
    ensures r.Ok? ==> dev.Contents() == Splice(old(dev.Contents()), start, log)
    ensures r.Err? ==> r.error.FromDevice()
    ensures Ready(dev, start, bbs, blocksize, sunit) ==> r.Ok?
  {
    hide IsRecord, ClearedBytes, AcceptsLog, Admit, Splice;
    FirstFits(first, uuid, sunit);
    log := first + Zeroes(bbs * BBSIZE - |first|);
    FreshBytes(first, bbs, uuid, sunit);
    var _ :- dev.WriteZeroes(start, bbs * BBSIZE);
    ghost var pad;
    r, pad := WriteFirst(dev, start, blocksize, first);
    if r.Ok? {
      ZeroedThenWritten(old(dev.Contents()), start, first, pad, bbs * BBSIZE);
    }
  }

  /** The first record, zeroes up to block 512, then records of the cycle before. */
  method PushRound(
      out: LogWriter, bbs: nat, sunit: nat, uuid: seq<byte>, cycle: nat, first: seq<byte>) returns (r: Result<()>)
    requires out.Valid() && out.pushed == [] && |uuid| == 16 && 2 <= cycle < TWO_32
    requires TOTAL_REC_BBS <= bbs < TWO_32 && RecordBbs(sunit) <= REC_BBS
    requires IsRecord(first, uuid, sunit, Lsn(cycle, 0), FirstTail(bbs, sunit, cycle))
    modifies out, out.dev
    ensures out.InStep() && |out.pushed| <= bbs * BBSIZE
    ensures r.Ok? ==> out.Valid() && ClearedPrefix(out.pushed, bbs, bbs, uuid, sunit, cycle) && bbs % REC_BBS != 1
    ensures r.Err? ==> r.error.FromDevice() || (r.error == Unsupported && bbs % REC_BBS == 1)
    ensures out.room == Some(bbs * BBSIZE) ==> if bbs % REC_BBS != 1 then r.Ok? else r == Err(Unsupported)
  {
    hide AcceptsLog, AcceptsPiece, FirstTail, ClearedPrefix;
    PrefixStarts(first, bbs, uuid, sunit, cycle);
    var _ :- out.Push(first);
    assert out.pushed == first;
    PrefixTakesZeroes(first, RecordBbs(sunit), REC_BBS - RecordBbs(sunit), bbs, uuid, sunit, cycle);
    var _ :- out.ZeroesTo(Min(REC_BBS, bbs) * BBSIZE);
    assert out.pushed == first + Zeroes((REC_BBS - RecordBbs(sunit)) * BBSIZE);
    r := PushTiles(out, bbs, uuid, sunit, cycle);
  }

  /** Rewrite a log past its first cycle. */
  method ClearRound(
      dev: MemDevice, start: nat, bbs: nat, sunit: nat, uuid: seq<byte>, cycle: nat, first: seq<byte>)
      returns (r: Result<()>, ghost log: seq<byte>)
    requires dev.Valid() && |uuid| == 16 && 2 <= cycle < TWO_32
    requires TOTAL_REC_BBS <= bbs < TWO_32 && RecordBbs(sunit) <= REC_BBS && sunit <= MAX_SUNIT
    requires IsRecord(first, uuid, sunit, Lsn(cycle, 0), FirstTail(bbs, sunit, cycle))
    modifies dev
    ensures dev.Valid() && SameBut(old(dev.Contents()), dev.Contents(), start, bbs * BBSIZE)
    ensures r.Ok? ==> start + bbs * BBSIZE <= dev.size && ClearedBytes(log, bbs, uuid, sunit, cycle)
    ensures r.Ok? ==> dev.Contents() == Splice(old(dev.Contents()), start, log) && bbs % REC_BBS != 1
    ensures r.Err? ==> r.error.FromDevice() || (r.error == Unsupported && bbs % REC_BBS == 1)
    ensures AcceptsLog(dev, start, bbs * BBSIZE) ==>
              if bbs % REC_BBS != 1 then r.Ok? else r == Err(Unsupported)
  {
    hide AcceptsLog, AcceptsPiece, FirstTail, SameBut, IsRecord;
    ghost var total: nat := bbs * BBSIZE;
    var out := new LogWriter(dev, start, if AcceptsLog(dev, start, total) then Some(total) else None);
    r := PushRound(out, bbs, sunit, uuid, cycle, first);
    log := out.pushed;
    if r.Err? {
      WrittenIsWithin(out.base, start, log[..out.at], bbs * BBSIZE);
      return;
    }
    r := out.Finish();
  }

  /** Rewrite the whole log at `cycle`. */
  method ClearLog(dev: MemDevice, start: nat, bbs: nat, blocksize: pos, sunit: nat, uuid: seq<byte>, cycle: nat)
      returns (r: Result<()>, ghost log: seq<byte>)
    requires dev.Valid() && |uuid| == 16 && 1 <= cycle < TWO_32
    requires TOTAL_REC_BBS <= bbs < TWO_32 && sunit <= MAX_SUNIT
    requires blocksize <= Geometry.MAX_BLOCKSIZE && WRITE_CHUNK % blocksize == 0
    modifies dev
    // Whatever the result, nothing outside the log changes.
    ensures dev.Valid() && SameBut(old(dev.Contents()), dev.Contents(), start, bbs * BBSIZE)
    ensures r.Ok? ==> start + bbs * BBSIZE <= dev.size && ClearedBytes(log, bbs, uuid, sunit, cycle)
    ensures r.Ok? ==> dev.Contents() == Splice(old(dev.Contents()), start, log)
    // The first record's tail: in the cycle before, as far from the end of the log as the record is long.
    ensures r.Ok? ==> |log| == bbs * BBSIZE && TailIs(log, bbs, sunit, cycle)
    ensures r.Ok? ==> cycle == INIT_CYCLE || bbs % REC_BBS != 1
    ensures r.Err? ==> r.error.FromDevice() || (r.error == Unsupported && cycle > INIT_CYCLE && bbs % REC_BBS == 1)
    ensures Ready(dev, start, bbs, blocksize, sunit) ==>
              if cycle == INIT_CYCLE || bbs % REC_BBS != 1 then r.Ok? else r == Err(Unsupported)
  {
    log := [];
    var len := Max(if sunit > 0 then CeilDiv(sunit, BBSIZE) else 2, 2);
    RecordLengthsAgree(sunit);
    var lsn := Lsn(cycle, 0);
    var tail := if cycle == INIT_CYCLE then lsn else Lsn(cycle - 1, bbs - len);
    var first := Record(uuid, sunit, lsn, tail);
    if first.Length != len * BBSIZE {
      return Err(Unsupported), log;
    }
    if cycle == INIT_CYCLE {
      r, log := ClearInit(dev, start, bbs, blocksize, sunit, uuid, first[..]);
      if r.Ok? {
        FirstTailIs(log, bbs, uuid, sunit, cycle);
      }
      return;
    }
    r, log := ClearRound(dev, start, bbs, sunit, uuid, cycle, first[..]);
    if r.Ok? {
      FirstTailIs(log, bbs, uuid, sunit, cycle);
    }
  }

  /** A log of 4097 basic blocks, on a device that takes every write: it cannot be cleared at cycle 2. */
  method OneBlockOver() returns (r: Result<()>)
    ensures r == Err(Unsupported)
  {
    var dev := new MemDevice(4097 * BBSIZE, 512, false);
    TakesLogIsReady(dev, 0, 4097, 512, 1);
    hide Ready, ClearedBytes;
    ghost var log;
    r, log := ClearLog(dev, 0, 4097, 512, 1, seq(16, _ => 0), 2);
  }

  /**
   The log as a format leaves it: zeroes, and one filesystem block with the first record, whose
   stripe unit is a block or none.
   */
  method FormatLog(dev: MemDevice, start: nat, bbs: nat, blocksize: pos, sunit: nat, uuid: seq<byte>)
      returns (r: Result<()>, ghost log: seq<byte>)
    requires dev.Valid() && |uuid| == 16 && TOTAL_REC_BBS <= bbs < TWO_32
    requires 2 * BBSIZE <= blocksize <= Geometry.MAX_BLOCKSIZE && blocksize % BBSIZE == 0 && sunit <= blocksize
    modifies dev
    ensures dev.Valid() && SameBut(old(dev.Contents()), dev.Contents(), start, bbs * BBSIZE)
    ensures r.Ok? ==> start + bbs * BBSIZE <= dev.size && ClearedBytes(log, bbs, uuid, sunit, 1)
    ensures r.Ok? ==> dev.Contents() == Splice(old(dev.Contents()), start, log)
    ensures r.Ok? <==> dev.Accepts(start, bbs * BBSIZE) && dev.Accepts(start, blocksize)
    ensures r.Err? ==> r.error.FromDevice()
  {
    hide IsRecord, ClearedBytes, Splice, SameBut, Admit;
    ghost var flat := dev.Contents();
    var rec := Record(uuid, sunit, Lsn(1, 0), Lsn(1, 0));
    RecordFits(rec[..], uuid, sunit, blocksize);
    var pad := blocksize - rec.Length;
    log := rec[..] + Zeroes(bbs * BBSIZE - rec.Length);
    FreshBytes(rec[..], bbs, uuid, sunit);
    SameAll(flat, start, bbs * BBSIZE);
    var _ :- dev.WriteZeroes(start, bbs * BBSIZE);
    SpliceIsWithin(flat, start, Zeroes(bbs * BBSIZE), bbs * BBSIZE);
    var _ :- dev.WriteAt(start, rec[..] + Zeroes(pad));
    ZeroedThenWritten(flat, start, rec[..], pad, bbs * BBSIZE);
    SpliceIsWithin(flat, start, log, bbs * BBSIZE);
    r := Ok(());
  }
}
