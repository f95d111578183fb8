/** The log's search and the cleared log over plain bytes, without the reader's view of a block. */
module LogInBytes {
  import opened Prelude
  import opened Bytes
  import opened LogFinder
  import opened LogTheorems
  import opened LogRecord
  import opened LogReader
  import opened LogClear

  /** The block starts with the header magic. */
  predicate Magic(b: seq<byte>)
    requires |b| >= 4
  {
    b[0] == 0xfe && b[1] == 0xed && b[2] == 0xba && b[3] == 0xbe
  }

  /** Blocks of headers, by version and size. */
  function HeadersOf(b: seq<byte>): nat
    requires |b| == 512
  {
    if b[11] / 2 % 2 == 1 && Be32(b, 320) > 32768 then CeilDiv(Be32(b, 320), 32768) else 1
  }

  /** What the search sees of a block, byte by byte. */
  lemma BlockReads(b: seq<byte>)
    requires |b| == 512
    ensures var d := Decode(b);
            && (d.IsHeader() <==> Magic(b)) && d.Cycle() == Be32(b, if Magic(b) then 4 else 0)
            && d.cycle == Be32(b, 4) && d.tailBlock == Be32(b, 28) && d.numLogops == Be32(b, 40)
            && d.size == Be32(b, 320) && d.version == Be32(b, 8) && d.len == Be32(b, 12)
            && d.RecordLen() == CeilDiv(Be32(b, 12), 512) + CeilDiv(Be32(b, 320), 32768)
            && d.HeaderBlocks() == HeadersOf(b) && (d.IsUnmount() <==> b[9] / 32 % 2 == 1)
  {
    MagicIs(b);
    VersionBit(b);
    hide Be32, Magic, CeilDiv;
  }

  lemma MagicIs(b: seq<byte>)
    requires |b| == 512
    ensures Magic(b) <==> Be32(b, 0) == 0xfeed_babe
  {
  }

  lemma VersionBit(b: seq<byte>)
    requires |b| == 512
    ensures Be32(b, 8) / 2 % 2 == b[11] / 2 % 2
  {
    var high := (b[8] as nat * 256 + b[9]) * 256 + b[10];
    assert Be32(b, 8) == 256 * high + b[11];
    DivModUnique(Be32(b, 8), 2, 128 * high + b[11] / 2, b[11] % 2);
    DivModUnique(128 * high + b[11] / 2, 2, 64 * high + b[11] / 4, b[11] / 2 % 2);
  }

  /** The header at `i` is the last before block `head` in log order. */
  ghost predicate LastHeader(bytes: seq<byte>, head: nat, i: nat) {
    && 512 * i + 512 <= |bytes| && Magic(Bb(bytes, i))
    && forall x: nat :: 512 * x + 512 <= |bytes| && (if i < head then i < x < head else x < head || i < x) ==>
         !Magic(Bb(bytes, x))
  }

  /** The record at `i` ends at `head`, has one operation, and that has the unmount bit. */
  predicate EndsInUnmount(bytes: seq<byte>, head: nat, i: nat)
    requires 512 * i + 512 <= |bytes| && |bytes| % 512 == 0
  {
    var n, b := |bytes| / 512, Bb(bytes, i);
    && head == (i + HeadersOf(b) + CeilDiv(Be32(b, 12), 512)) % n
    && Be32(b, 40) == 1
    && Bb(bytes, (i + HeadersOf(b)) % n)[9] / 32 % 2 == 1
  }

  /**
   The tail search over the bytes of a log, given its head: the tail is the head if the record before it
   ends there and is one operation with the unmount bit, and otherwise the low word of that record's tail
   number; the cycle is that record's, or the next round the physical end.
   */
  lemma TailInBytes(bytes: seq<byte>, head: nat, i: nat)
    requires |bytes| % 512 == 0 && |bytes| >= 4096 * 512
    requires FindHead(Decoded(bytes)) == Ok(head) && LastHeader(bytes, head, i)
    requires head == 0 ==> Be32(bytes, if Magic(bytes) then 4 else 0) != 0
    ensures var b := Bb(bytes, i);
            FindTail(Decoded(bytes)) == Ok(LogState(
              head,
              if EndsInUnmount(bytes, head, i) then head else Be32(b, 28),
              if i < head then Be32(b, 4) else if Be32(b, 4) == 0xffff_ffff then 0 else Be32(b, 4) + 1))
  {
    var log := Decoded(bytes);
    var n := |log|;
    hide FindHead, Be32, Magic, EndsInUnmount, HeadersOf, CeilDiv, Decode, Bb, StateAt;
    forall k: nat | k < n
      ensures log[k] == Decode(Bb(bytes, k)) && (log[k].IsHeader() <==> Magic(Bb(bytes, k)))
    {
      BlockReads(Bb(bytes, k));
    }
    FirstBlock(bytes);
    SyncFinds(bytes, log, head, i);
    StateInBytes(bytes, log, head, i);
  }

  lemma FirstBlock(bytes: seq<byte>)
    requires |bytes| % 512 == 0 && |bytes| >= 4096 * 512
    ensures Decoded(bytes)[0].Cycle() == Be32(bytes, if Magic(bytes) then 4 else 0)
  {
    BlockReads(Bb(bytes, 0));
    hide Block.Cycle;
  }

  lemma SyncFinds(bytes: seq<byte>, log: Log, head: nat, i: nat)
    requires |bytes| == 512 * |log| && LastHeader(bytes, head, i) && head < |log|
    requires forall k: nat :: k < |log| ==> (log[k].IsHeader() <==> Magic(Bb(bytes, k)))
    ensures i < |log| && SyncRecord(log, head) == Some((i, head <= i))
  {
    hide Magic, Bb;
    if i < head {
      HeaderBelowFinds(log, 0, head, i);
    } else {
      HeaderBelowFinds(log, head, |log|, i);
    }
  }

  lemma StateInBytes(bytes: seq<byte>, log: Log, head: nat, i: nat)
    requires |bytes| == 512 * |log| && i < |log|
    requires forall k: nat :: k < |log| ==> log[k] == Decode(Bb(bytes, k))
    ensures var b := Bb(bytes, i);
            StateAt(log, head, i, head <= i) == LogState(
              head,
              if EndsInUnmount(bytes, head, i) then head else Be32(b, 28),
              if i < head then Be32(b, 4) else if Be32(b, 4) == 0xffff_ffff then 0 else Be32(b, 4) + 1)
  {
    hide Be32, Magic, HeadersOf, CeilDiv, Decode, Bb, Block.HeaderBlocks, Block.IsUnmount;
    var b := Bb(bytes, i);
    RecordIs(log[i], b);
    var op := (i + HeadersOf(b)) % |log|;
    OperationIs(log[op], Bb(bytes, op));
    assert i + log[i].HeaderBlocks() + CeilDiv(log[i].len, BBSIZE) == i + HeadersOf(b) + CeilDiv(Be32(b, 12), 512);
  }

  lemma RecordIs(d: Block, b: seq<byte>)
    requires |b| == 512 && d == Decode(b)
    ensures d.HeaderBlocks() == HeadersOf(b) && CeilDiv(d.len, BBSIZE) == CeilDiv(Be32(b, 12), 512)
    ensures d.cycle == Be32(b, 4) && d.tailBlock == Be32(b, 28) && d.numLogops == Be32(b, 40)
  {
    BlockReads(b);
    hide Be32, Magic, HeadersOf, CeilDiv, Decode, Block.HeaderBlocks, Block.RecordLen;
  }

  lemma OperationIs(d: Block, b: seq<byte>)
    requires |b| == 512 && d == Decode(b)
    ensures d.IsUnmount() <==> b[9] / 32 % 2 == 1
  {
    BlockReads(b);
  }

  // ---------------------------------------------------------------------------------------
  // A cleared log.

  /** The blocks of a record with this stripe unit. */
  function RecordBlocks(sunit: nat): nat {
    Max(2, CeilDiv(sunit, 512))
  }

  lemma RecordBlocksAre(sunit: nat)
    ensures RecordBbs(sunit) == RecordBlocks(sunit)
    ensures Hdrs(sunit) == if sunit > 32768 then CeilDiv(sunit, 32768) else 1
  {
    RecordLengthsAgree(sunit);
  }

  /** A header's own number and its tail's, each a cycle and a block. */
  predicate NumbersAre(b: seq<byte>, cycle: nat, block: nat, tailCycle: nat, tailBlock: nat)
    requires |b| == 512
  {
    && Be32(b, 4) == cycle && Be32(b, 16) == cycle && Be32(b, 20) == block
    && Be32(b, 24) == tailCycle && Be32(b, 28) == tailBlock
  }

  /** The rest of it: version 2, little-endian, one operation, whose first word is kept here. */
  ghost predicate FormIs(b: seq<byte>, uuid: seq<byte>, sunit: nat)
    requires |b| == 512
  {
    && Magic(b) && Be32(b, 8) == 2 && Be32(b, 12) == Max(1024, sunit) - HeadersOf(b) * 512
    && Be32(b, 32) == 0 && Be32(b, 36) == 0xffff_ffff && Be32(b, 40) == 1
    && Be32(b, 44) == 0xb0c0_d0d0 && Be32(b, 300) == 1
    && b[304..320] == uuid && Be32(b, 320) == Max(sunit, 32768)
    && (forall i :: 48 <= i < 300 || 324 <= i < 512 ==> b[i] == 0)
  }

  /** The operation that shuts the log down: eight bytes of the log's client, flagged as an unmount. */
  ghost predicate UnmountIs(b: seq<byte>, cycle: nat) {
    && |b| == 512 && Be32(b, 0) == cycle
    && b[4..14] == [0, 0, 0, 8, 0xaa, 0x20, 0, 0, 0x6e, 0x55]
    && forall i :: 14 <= i < 512 ==> b[i] == 0
  }

  lemma NumberIs(b: seq<byte>, o: nat, cycle: nat, block: nat)
    requires o + 8 <= |b| && cycle < TWO_32 && block < TWO_32 && Be64(b, o) == Lsn(cycle, block)
    ensures Be32(b, o) == cycle && Be32(b, o + 4) == block
  {
    DivModUnique(Be64(b, o), TWO_32, Be32(b, o), Be32(b, o + 4));
  }

  lemma NumbersInBytes(
      b: seq<byte>, uuid: seq<byte>, sunit: nat, cycle: nat, block: nat, tailCycle: nat, tailBlock: nat)
    requires cycle < TWO_32 && block < TWO_32 && tailCycle < TWO_32 && tailBlock < TWO_32
    requires HeaderBlock(b, uuid, sunit, Lsn(cycle, block), Lsn(tailCycle, tailBlock))
    ensures NumbersAre(b, cycle, block, tailCycle, tailBlock)
  {
    NumberIs(b, 16, cycle, block);
    NumberIs(b, 24, tailCycle, tailBlock);
    hide Be32, Be64, Hdrs;
  }

  lemma FormInBytes(b: seq<byte>, uuid: seq<byte>, sunit: nat, lsn: nat, tail: nat)
    requires HeaderBlock(b, uuid, sunit, lsn, tail)
    ensures FormIs(b, uuid, sunit)
  {
    hide Be32, Magic, Be64, CeilDiv, Hdrs;
    MagicIs(b);
    VersionBit(b);
    RecordBlocksAre(sunit);
  }

  lemma UnmountInBytes(b: seq<byte>, cycle: nat)
    requires UnmountBlock(b, cycle)
    ensures UnmountIs(b, cycle)
  {
  }

  /** Block `k` of a record after its first: the unmount after the headers, and stamped zeroes. */
  ghost predicate RestIs(b: seq<byte>, k: nat, sunit: nat, cycle: nat) {
    if k == (if sunit > 32768 then CeilDiv(sunit, 32768) else 1) then UnmountIs(b, cycle)
    else |b| == 512 && Be32(b, 0) == cycle && forall i :: 4 <= i < 512 ==> b[i] == 0
  }

  /** The `len` blocks of an unmount record at block `at`. */
  ghost predicate WholeRecord(
      bytes: seq<byte>, at: nat, len: nat, uuid: seq<byte>, sunit: nat, cycle: nat, tailCycle: nat, tailBlock: nat) {
    && 512 * (at + len) <= |bytes| && len >= 2
    && NumbersAre(Bb(bytes, at), cycle, at, tailCycle, tailBlock) && FormIs(Bb(bytes, at), uuid, sunit)
    && forall x: nat :: at < x < at + len ==> RestIs(Bb(bytes, x), x - at, sunit, cycle)
  }

  lemma RestInBytes(b: seq<byte>, k: nat, uuid: seq<byte>, sunit: nat, lsn: nat, tail: nat)
    requires k > 0 && RecordBlock(b, k, uuid, sunit, lsn, tail)
    ensures RestIs(b, k, sunit, lsn / TWO_32)
  {
    RecordBlocksAre(sunit);
    hide Be32, CeilDiv, Hdrs;
    if k == Hdrs(sunit) {
      UnmountInBytes(b, lsn / TWO_32);
    } else {
    }
  }

  lemma RecordInBytes(
      bytes: seq<byte>, at: nat, len: nat, uuid: seq<byte>, sunit: nat, cycle: nat, tailCycle: nat, tailBlock: nat)
    requires cycle < TWO_32 && at < TWO_32 && tailCycle < TWO_32 && tailBlock < TWO_32 && len >= 2
    requires 512 * (at + len) <= |bytes|
    requires forall x: nat :: at <= x < at + len ==>
               RecordBlock(Bb(bytes, x), x - at, uuid, sunit, Lsn(cycle, at), Lsn(tailCycle, tailBlock))
    ensures WholeRecord(bytes, at, len, uuid, sunit, cycle, tailCycle, tailBlock)
  {
    hide NumbersAre, FormIs, RestIs, Bb, Hdrs;
    forall x: nat | at <= x < at + len
      ensures RecordBlock(Bb(bytes, x), x - at, uuid, sunit, Lsn(cycle, at), Lsn(tailCycle, tailBlock))
    {
    }
    NumbersInBytes(Bb(bytes, at), uuid, sunit, cycle, at, tailCycle, tailBlock);
    FormInBytes(Bb(bytes, at), uuid, sunit, Lsn(cycle, at), Lsn(tailCycle, tailBlock));
    forall x: nat | at < x < at + len
      ensures RestIs(Bb(bytes, x), x - at, sunit, cycle)
    {
      RestInBytes(Bb(bytes, x), x - at, uuid, sunit, Lsn(cycle, at), Lsn(tailCycle, tailBlock));
    }
  }

  /**
   A log cleared at `cycle`, as bytes. Its first record names, as its tail, its own start in cycle 1, and
   past it the block of the cycle before that is as far from the end of the log as the record is long. From
   block 512 on every record names the one before it, were that as long.
   */
  lemma ClearedInBytes(bytes: seq<byte>, bbs: nat, uuid: seq<byte>, sunit: nat, cycle: nat)
    requires ClearedBytes(bytes, bbs, uuid, sunit, cycle) && (cycle >= 2 ==> bbs % 512 != 1)
    ensures var len := RecordBlocks(sunit);
            && len <= 512 && |bytes| == 512 * bbs
            && (if cycle == 1 then WholeRecord(bytes, 0, len, uuid, sunit, 1, 1, 0)
                else WholeRecord(bytes, 0, len, uuid, sunit, cycle, cycle - 1, bbs - len))
            && (forall i :: 512 * len <= i < (if cycle == 1 then 512 * bbs else 512 * 512) ==> bytes[i] == 0)
    ensures cycle >= 2 ==> forall t: nat :: 1 <= t && 512 * t < bbs ==>
              var len := Min(512, bbs - 512 * t);
              WholeRecord(bytes, 512 * t, len, uuid, 512 * len, cycle - 1, cycle - 1, 512 * t - len)
  {
    hide WholeRecord, ClearedBytes, RecordBlocks;
    FirstInBytes(bytes, bbs, uuid, sunit, cycle);
    ZeroesInBytes(bytes, bbs, uuid, sunit, cycle);
    if cycle >= 2 {
      forall t: nat | 1 <= t && 512 * t < bbs
        ensures var len := Min(512, bbs - 512 * t);
                WholeRecord(bytes, 512 * t, len, uuid, 512 * len, cycle - 1, cycle - 1, 512 * t - len)
      {
        TileInBytes(bytes, bbs, uuid, sunit, cycle, t);
      }
    }
  }

  lemma FirstInBytes(bytes: seq<byte>, bbs: nat, uuid: seq<byte>, sunit: nat, cycle: nat)
    requires ClearedBytes(bytes, bbs, uuid, sunit, cycle)
    ensures var len := RecordBlocks(sunit);
            && len <= 512 && |bytes| == 512 * bbs
            && (if cycle == 1 then WholeRecord(bytes, 0, len, uuid, sunit, 1, 1, 0)
                else WholeRecord(bytes, 0, len, uuid, sunit, cycle, cycle - 1, bbs - len))
  {
    RecordBlocksAre(sunit);
    RecordLengthsAgree(sunit);
    hide WholeRecord, RecordBlock, Bb, CeilDiv, Hdrs, RecordBbs, RecordBlocks;
    var len := RecordBlocks(sunit);
    var (c, b) := if cycle == 1 then (1, 0) else (cycle - 1, bbs - len);
    forall x: nat | 0 <= x < len
      ensures RecordBlock(Bb(bytes, x), x, uuid, sunit, Lsn(cycle, 0), Lsn(c, b))
    {
      assert ClearedBlock(Bb(bytes, x), x, bbs, uuid, sunit, cycle);
    }
    RecordInBytes(bytes, 0, len, uuid, sunit, cycle, c, b);
  }

  lemma ZeroesInBytes(bytes: seq<byte>, bbs: nat, uuid: seq<byte>, sunit: nat, cycle: nat)
    requires ClearedBytes(bytes, bbs, uuid, sunit, cycle)
    ensures forall i :: 512 * RecordBlocks(sunit) <= i < (if cycle == 1 then 512 * bbs else 512 * 512) ==>
              i < |bytes| && bytes[i] == 0
  {
    RecordBlocksAre(sunit);
    hide RecordBlock, CeilDiv, Hdrs, RecordBbs, RecordBlocks;
    forall i | 512 * RecordBlocks(sunit) <= i < (if cycle == 1 then 512 * bbs else 512 * 512)
      ensures i < |bytes| && bytes[i] == 0
    {
      assert ClearedBlock(Bb(bytes, i / 512), i / 512, bbs, uuid, sunit, cycle);
      assert Bb(bytes, i / 512)[i % 512] == bytes[i];
    }
  }

  lemma TileInBytes(bytes: seq<byte>, bbs: nat, uuid: seq<byte>, sunit: nat, cycle: nat, t: nat)
    requires ClearedBytes(bytes, bbs, uuid, sunit, cycle) && cycle >= 2 && bbs % 512 != 1
    requires 1 <= t && 512 * t < bbs
    ensures var len := Min(512, bbs - 512 * t);
            WholeRecord(bytes, 512 * t, len, uuid, 512 * len, cycle - 1, cycle - 1, 512 * t - len)
  {
    hide WholeRecord, RecordBlock, Bb, CeilDiv, Hdrs, RecordBbs, Lsn;
    var base := 512 * t;
    var len := Min(512, bbs - base);
    TileFits(bbs, t);
    forall x: nat | base <= x < base + len
      ensures RecordBlock(Bb(bytes, x), x - base, uuid, 512 * len, Lsn(cycle - 1, base), Lsn(cycle - 1, base - len))
    {
      assert ClearedBlock(Bb(bytes, x), x, bbs, uuid, sunit, cycle);
      TileBlock(Bb(bytes, x), x, t, bbs, uuid, sunit, cycle);
    }
    RecordInBytes(bytes, base, len, uuid, 512 * len, cycle - 1, cycle - 1, base - len);
  }

  // ---------------------------------------------------------------------------------------
  // A log with changes to replay.

  /** Block `k` of a fresh log as the search sees it. */
  lemma FreshBlock(bytes: seq<byte>, bbs: nat, uuid: seq<byte>, sunit: nat, k: nat)
    requires ClearedBytes(bytes, bbs, uuid, sunit, 1) && k < bbs
    ensures k == 0 ==> HeaderBlock(Bb(bytes, k), uuid, sunit, Lsn(1, 0), Lsn(1, 0))
    ensures k > 0 ==> Decode(Bb(bytes, k)).word == if k < RecordBbs(sunit) then 1 else 0
  {
    RecordLengthsAgree(sunit);
    assert ClearedBlock(Bb(bytes, k), k, bbs, uuid, sunit, 1);
    if 0 < k < RecordBbs(sunit) {
      DecodesRest(Bb(bytes, k), k, uuid, sunit, Lsn(1, 0), Lsn(1, 0));
    } else if k > 0 {
      ZeroIsZero(Bb(bytes, k));
    }
  }

  lemma OtherBlocks(bytes: seq<byte>, after: seq<byte>, at: nat, k: nat)
    requires at < |bytes| && after == bytes[at := 0] && 512 * k + 512 <= |bytes|
    ensures at / 512 != k ==> Bb(after, k) == Bb(bytes, k)
    ensures Be32(Bb(bytes, k), 0) == Be32(Bb(after, k), 0) || at % 512 < 4
    ensures at / 512 == k ==> Bb(after, k)[at % 512] == 0
  {
  }

  /**
   Clear the unmount bit of a fresh log's one operation, and the log has changes to replay: its head is the
   end of the record, its tail block 0, its cycle 1.
   */
  lemma UnmountCleared(bytes: seq<byte>, after: seq<byte>, bbs: nat, uuid: seq<byte>, sunit: nat)
    requires ClearedBytes(bytes, bbs, uuid, sunit, 1)
    requires var at := 512 * (if sunit > 32768 then CeilDiv(sunit, 32768) else 1) + 9;
             at < |bytes| && after == bytes[at := 0]
    ensures |after| == 512 * bbs && FindTail(Decoded(after)) == Ok(LogState(RecordBlocks(sunit), 0, 1))
  {
    RecordBlocksAre(sunit);
    RecordLengthsAgree(sunit);
    HeadersFit(sunit);
    hide Decode, CeilDiv, ClearedBytes, FindTail, HeaderBlock, Block.IsUnmount, Block.IsHeader, Version2, LoneUnmount;
    hide Block.RecordLen, Block.HeaderBlocks, Hdrs, RecordBbs;
    var hdrs, len, log := Hdrs(sunit), RecordBbs(sunit), Decoded(after);
    FreshSizes(bytes, bbs, uuid, sunit);
    FreshBlock(bytes, bbs, uuid, sunit, 0);
    OtherBlocks(bytes, after, 512 * hdrs + 9, 0);
    DecodesHeader(Bb(after, 0), uuid, sunit, Lsn(1, 0), Lsn(1, 0));
    forall k | 0 < k < bbs
      ensures log[k].word == if k < len then 1 else 0
    {
      FreshBlock(bytes, bbs, uuid, sunit, k);
      OtherBlocks(bytes, after, 512 * hdrs + 9, k);
      WordsDecode(Bb(bytes, k), Bb(after, k));
    }
    assert StartedLog(log, len);
    OtherBlocks(bytes, after, 512 * hdrs + 9, hdrs);
    NoFlag(Bb(after, hdrs));
    NotLone(log, hdrs);
    StartedState(log, len);
  }

  lemma NotLone(log: Log, hdrs: nat)
    requires log[0].HeaderBlocks() == hdrs < |log| && log[hdrs].opFlags == 0
    ensures !LoneUnmount(log, 0)
  {
    SmallMod(hdrs, |log|);
  }

  lemma FreshSizes(bytes: seq<byte>, bbs: nat, uuid: seq<byte>, sunit: nat)
    requires ClearedBytes(bytes, bbs, uuid, sunit, 1)
    ensures |bytes| == 512 * bbs && bbs >= TOTAL_REC_BBS && RecordBbs(sunit) <= REC_BBS
  {
  }

  lemma WordsDecode(a: seq<byte>, b: seq<byte>)
    requires |a| == |b| == BBSIZE && Be32(a, 0) == Be32(b, 0)
    ensures Decode(a).word == Decode(b).word
  {
  }

  lemma NoFlag(b: seq<byte>)
    requires |b| == BBSIZE && b[9] == 0
    ensures Decode(b).opFlags == 0
  {
  }
}
