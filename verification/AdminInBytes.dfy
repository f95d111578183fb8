/** Opening a filesystem and setting its UUID over plain bytes. */
module AdminInBytes {
  import opened Prelude
  import opened Bytes
  import opened Device
  import opened LogFinder
  import opened LogRecord
  import opened LogReader
  import opened LogInBytes
  import opened Identity
  import opened SbRewrite
  import opened Superblocks
  import opened SuperblockInBytes
  import opened Admin
  import LogClear
  import Checksum
  import SuperblockCodec

  /** A superblock's block: the magic, and the checksum of its sector. */
  predicate LooksGood(b: seq<byte>, sectsize: nat)
    requires 264 <= sectsize <= |b|
  {
    b[0..4] == [0x58, 0x46, 0x53, 0x42] && Checksum.Sealed(b[..sectsize], 224)
  }

  /**
   What a filesystem opens to, by the bytes at the start of its device: refused as the device refuses, as the
   parser does, as corrupt, as needing recovery with the bit 0x10, and as unsupported with a bit from 0x40
   up, a realtime device, or an external log.
   */
  lemma OpensInBytes(dev: MemDevice, flat: seq<byte>)
    requires |flat| == dev.size >= 264
    ensures var sector := if dev.logical < 512 then 512 else dev.logical;
            var len := if dev.size < sector then dev.size else sector;
            var asked, parsed := dev.Check(0, len), SuperblockCodec.Parse(flat[..len]);
            if asked.Err? then Opens(dev, flat) == Err(asked.error)
            else if parsed.Err? then Opens(dev, flat) == Err(parsed.error)
            else
              var geo := parsed.value;
              var again := dev.Check(0, geo.blocksize);
              && 264 <= geo.sectsize <= geo.blocksize &&
              if again.Err? then Opens(dev, flat) == Err(again.error)
              else
                && geo.blocksize <= |flat| &&
                var b := flat[..geo.blocksize];
                if !LooksGood(b, geo.sectsize) then Opens(dev, flat) == Err(Corrupt)
                else if Be32(b, 216) / 0x10 % 2 == 1 then Opens(dev, flat) == Err(NeedsRecovery)
                else if Be32(b, 216) >= 0x40 || Be64(b, 16) != 0 || Be64(b, 48) == 0 then
                  Opens(dev, flat) == Err(Unsupported)
                else Opens(dev, flat) == Ok(geo)
  {
    hide Geo.Sane, Be32, Be64, Checksum.Sealed, OpenError, Sb, SuperblockCodec.Parse, Admit;
    var head := HeadGeo(dev, flat);
    if head.Ok? {
      var geo := head.value;
      SaneSizes(geo);
      FirstByte(geo);
      if dev.Check(0, geo.blocksize).Ok? {
        CheckedIsWithin(dev, geo.blocksize);
        var b := flat[..geo.blocksize];
        assert SbBlock(flat, geo, 0) == b;
        MagicIff(b);
        RefusedInBytes(b);
      }
    }
  }

  lemma FirstByte(geo: Geo)
    ensures SbByte(geo, 0) == 0
  {
  }

  lemma CheckedIsWithin(dev: MemDevice, len: nat)
    requires dev.Check(0, len).Ok?
    ensures len <= dev.size
  {
  }

  // ---------------------------------------------------------------------------------------
  // Logs that are not clean.

  /** The record before the head is there, is not an unmount that ends at it, and names another block. */
  ghost predicate HasChanges(bytes: seq<byte>, head: nat, i: nat) {
    && |bytes| % 512 == 0 && |bytes| >= 4096 * 512
    && FindHead(Decoded(bytes)) == Ok(head) && LastHeader(bytes, head, i)
    && (head == 0 ==> Be32(bytes, if Magic(bytes) then 4 else 0) != 0)
    && !EndsInUnmount(bytes, head, i) && Be32(Bb(bytes, i), 28) != head
  }

  lemma ChangesAreDirty(bytes: seq<byte>, head: nat, i: nat)
    requires HasChanges(bytes, head, i)
    ensures FindTail(Decoded(bytes)).Ok? && FindTail(Decoded(bytes)).value.Dirty()
    ensures Be32(Bb(bytes, i), 4) < 0xffff_fffe ==> FindTail(Decoded(bytes)).value.cycle + 1 < TWO_32
  {
    TailInBytes(bytes, head, i);
    hide FindHead, FindTail, EndsInUnmount, LastHeader, Magic, Be32, Bb;
  }

  /** A log with changes to replay is refused: the UUID is not set and nothing is written. */
  method SetWithChanges(dev: MemDevice, to: Uuid, limit: nat, ghost geo: Geo, ghost head: nat, ghost i: nat)
      returns (r: Result<()>)
    requires dev.Valid() && 264 <= dev.size && Opens(dev, dev.Contents()) == Ok(geo) && LogKnown(geo)
    requires AcceptsWindows(dev, LogByte(geo), LogBbs(geo)) && HasChanges(LogBytes(dev, geo), head, i)
    requires Be32(Bb(LogBytes(dev, geo), i), 4) < 0xffff_fffe
    modifies dev
    ensures dev.Valid() && r == Err(NeedsRecovery) && dev.Contents() == old(dev.Contents())
  {
    hide HasChanges, FindTail, Opens, LogKnown, LogByte, LogBbs, Outcome, Geo.Sane;
    ChangesAreDirty(LogBytes(dev, geo), head, i);
    LongEnough(LogBytes(dev, geo), head, i);
    ghost var tail := LogTail(dev, geo);
    assert tail == FindTail(Decoded(LogBytes(dev, geo)));
    ghost var was, mid, n := dev.Contents(), [], 0;
    r, mid, n := SetUuid(dev, to, limit, tail);
    NotClean(dev, geo, was, mid, dev.Contents(), to, limit, tail, n, r);
  }

  lemma NotClean(
      dev: MemDevice, geo: Geo, was: seq<byte>, mid: seq<byte>, now: seq<byte>, to: Uuid, limit: nat,
      tail: Result<LogState>, n: nat, r: Result<()>)
    requires geo.Sane() && |was| == |mid| == dev.size && OnDevice(was, geo, 0)
    requires Outcome(dev, geo, was, mid, now, to, limit, tail, n, r)
    requires tail.Ok? && tail.value.Dirty() && AcceptsWindows(dev, LogByte(geo), LogBbs(geo))
    ensures r == Err(NeedsRecovery) && now == was
  {
    hide Geo.Sane, Rewrote, SameBut, Ended, LogReady, SbAt, ClearedIn, LogByte, LogBbs, AcceptsWindows;
  }

  lemma LongEnough(bytes: seq<byte>, head: nat, i: nat)
    requires HasChanges(bytes, head, i)
    ensures |bytes| >= TOTAL_REC_BBS * BBSIZE
  {
  }

  // ---------------------------------------------------------------------------------------
  // What a set leaves.

  lemma SliceBlock(flat: seq<byte>, start: nat, len: nat, k: nat)
    requires start + len <= |flat| && 512 * k + 512 <= len
    ensures Bb(flat[start..start + len], k) == flat[start + 512 * k..start + 512 * k + 512]
  {
    var a, b := Bb(flat[start..start + len], k), flat[start + 512 * k..start + 512 * k + 512];
    forall i | 0 <= i < 512
      ensures a[i] == b[i]
    {
      assert a[i] == flat[start..start + len][512 * k + i] == flat[start + (512 * k + i)];
    }
  }

  /**
   After a set the log starts with a record of the cycle after the one found, under the new UUID. Its tail
   names the cycle found, and the block as far from the end of the log as the record is long; of a log that
   was at cycle 0, its own start.
   */
  lemma SetInBytes(
      dev: MemDevice, geo: Geo, was: seq<byte>, mid: seq<byte>, now: seq<byte>, to: Uuid, limit: nat,
      tail: Result<LogState>, n: nat, r: Result<()>)
    requires geo.Sane() && |was| == |mid| == dev.size && OnDevice(was, geo, 0) && Apart(geo)
    requires Outcome(dev, geo, was, mid, now, to, limit, tail, n, r) && r.Ok?
    ensures var start, len := LogByte(geo), RecordBlocks(geo.logsunit);
            && start + 512 * LogBbs(geo) <= |now| == |was| && 2 <= len <= LogBbs(geo) && tail.Ok? &&
            var b := now[start..start + 512];
            var c := tail.value.cycle;
            && FormIs(b, to, geo.logsunit)
            && (if c == 0 then NumbersAre(b, 1, 0, 1, 0) else NumbersAre(b, c + 1, 0, c, LogBbs(geo) - len))
  {
    hide Geo.Sane, Rewrote, SameBut, Ended, LogReady, Apart, OnDevice, SbAt, FormIs, NumbersAre, SameElsewhere;
    hide LogByte, LogBbs, ClearedIn, RecordBlocks;
    OutcomeElsewhere(dev, geo, was, mid, now, to, limit, tail, n, r);
    ClearedStart(now, geo, to, tail.value.cycle + 1);
    SameLength(was, now, geo);
  }

  lemma SameLength(was: seq<byte>, now: seq<byte>, geo: Geo)
    requires SameElsewhere(was, now, geo)
    ensures |was| == |now|
  {
  }

  lemma ClearedStart(flat: seq<byte>, geo: Geo, to: Uuid, cycle: nat)
    requires ClearedIn(flat, geo, to, cycle)
    ensures var start, len := LogByte(geo), RecordBlocks(geo.logsunit);
            && start + 512 * LogBbs(geo) <= |flat| && 2 <= len <= LogBbs(geo) && cycle >= 1 &&
            var b := flat[start..start + 512];
            && FormIs(b, to, geo.logsunit)
            && (if cycle == 1 then NumbersAre(b, 1, 0, 1, 0) else NumbersAre(b, cycle, 0, cycle - 1, LogBbs(geo) - len))
  {
    hide LogByte, LogBbs, FormIs, NumbersAre, LogClear.ClearedBytes, CeilDiv;
    var start, len := LogByte(geo), LogLen(geo);
    var log := flat[start..start + len];
    LogClear.ClearedIsLong(log, LogBbs(geo), to, geo.logsunit, cycle);
    FirstInBytes(log, LogBbs(geo), to, geo.logsunit, cycle);
    SliceBlock(flat, start, len, 0);
  }

  /** When the device fails after `limit` superblocks, and those are good, exactly they are rewritten. */
  lemma FailureStops(
      dev: MemDevice, geo: Geo, was: seq<byte>, mid: seq<byte>, now: seq<byte>, to: Uuid, limit: nat,
      tail: Result<LogState>, n: nat, r: Result<()>)
    requires geo.Sane() && |was| == |mid| == dev.size && OnDevice(was, geo, 0)
    requires Outcome(dev, geo, was, mid, now, to, limit, tail, n, r) && Clean(tail) && LogReady(dev, geo)
    requires tail.value.cycle > 0 ==> LogBbs(geo) % 512 != 1
    requires limit < geo.agcount && 264 <= geo.sectsize <= geo.blocksize
    requires forall i: nat :: i < limit ==> dev.Accepts(SbByte(geo, i), geo.blocksize) && OnDevice(mid, geo, i)
    requires forall i: nat :: i < limit ==> LooksGood(SbBlock(mid, geo, i), geo.sectsize)
    ensures n == limit && r == Err(Io)
  {
    hide Geo.Sane, Rewrote, SameBut, ClearedIn, SbByte, Checksum.Sealed, Be32, LogReady, SbAt, LogByte, LogBbs;
    forall i: nat | i < limit
      ensures SbError(dev, mid, geo, i).None?
    {
      MagicIff(SbBlock(mid, geo, i));
    }
    var there := SbError(dev, mid, geo, n);
  }

  /**
   When a later group's superblock has a bad magic or checksum, exactly the groups before it are rewritten,
   and the result is that it is corrupt.
   */
  lemma BadGroupStops(
      dev: MemDevice, geo: Geo, was: seq<byte>, mid: seq<byte>, now: seq<byte>, to: Uuid, limit: nat,
      tail: Result<LogState>, n: nat, r: Result<()>, bad: nat)
    requires geo.Sane() && |was| == |mid| == dev.size && OnDevice(was, geo, 0)
    requires Outcome(dev, geo, was, mid, now, to, limit, tail, n, r) && Clean(tail) && LogReady(dev, geo)
    requires tail.value.cycle > 0 ==> LogBbs(geo) % 512 != 1
    requires bad < geo.agcount <= limit && 264 <= geo.sectsize <= geo.blocksize
    requires forall i: nat :: i <= bad ==> dev.Accepts(SbByte(geo, i), geo.blocksize) && OnDevice(mid, geo, i)
    requires forall i: nat :: i < bad ==> LooksGood(SbBlock(mid, geo, i), geo.sectsize)
    requires !LooksGood(SbBlock(mid, geo, bad), geo.sectsize)
    ensures n == bad && r == Err(Corrupt)
  {
    hide Geo.Sane, Rewrote, SameBut, ClearedIn, SbByte, Checksum.Sealed, Be32, LogReady, SbAt, LogByte, LogBbs;
    forall i: nat | i <= bad
      ensures SbError(dev, mid, geo, i) == if i == bad then Some(Corrupt) else None
    {
      MagicIff(SbBlock(mid, geo, i));
    }
    var here, there := SbError(dev, mid, geo, bad), SbError(dev, mid, geo, n);
  }
}
