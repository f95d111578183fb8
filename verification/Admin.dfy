/** Giving an existing filesystem a new UUID: the log check and clear, then every superblock. */
module Admin {
  import opened Prelude
  import opened Bytes
  import opened Device
  import opened LogFinder
  import opened LogRecord
  import opened LogReader
  import opened LogWriter
  import opened LogClear
  import opened Identity
  import opened SbRewrite
  import opened Superblocks
  import opened SuperblockInBytes
  import LogTheorems
  import Checksum
  import SuperblockCodec

  type Geo = SuperblockCodec.Geo

  // ---------------------------------------------------------------------------------------
  // The log.

  function LogByte(geo: Geo): nat {
    geo.LogExtent().0
  }

  function LogBbs(geo: Geo): nat {
    geo.LogExtent().1
  }

  function LogLen(geo: Geo): nat {
    LogBbs(geo) * BBSIZE
  }

  ghost function LogBytes(dev: MemDevice, geo: Geo): seq<byte>
    requires dev.Valid()
    reads dev
  {
    Extent(dev, LogByte(geo), LogBbs(geo))
  }

  /** What the search makes of the log. */
  ghost function LogTail(dev: MemDevice, geo: Geo): Result<LogState>
    requires dev.Valid()
    reads dev
  {
    if LogBbs(geo) < TOTAL_REC_BBS then Err(Unsupported) else FindTail(Decoded(LogBytes(dev, geo)))
  }

  /** Found, and with nothing to replay. */
  predicate Clean(tail: Result<LogState>) {
    tail.Ok? && !tail.value.Dirty()
  }

  /** Why a log that is not clean is refused. */
  function Refusal(tail: Result<LogState>): Error
    requires !Clean(tail)
  {
    if tail.Err? then tail.error else NeedsRecovery
  }

  /** A cycle can follow the one found. */
  predicate Follows(tail: Result<LogState>) {
    tail.Ok? ==> tail.value.cycle + 1 < TWO_32
  }

  /** The log's numbers fit the fields of a record. */
  predicate LogKnown(geo: Geo) {
    LogBbs(geo) < TWO_32 && geo.logsunit <= MAX_SUNIT
  }

  /** The device answers every read and write of the log. */
  ghost predicate LogReady(dev: MemDevice, geo: Geo)
    requires geo.blocksize > 0
  {
    && AcceptsWindows(dev, LogByte(geo), LogBbs(geo))
    && Ready(dev, LogByte(geo), LogBbs(geo), geo.blocksize, geo.logsunit)
  }

  /** The log is zeroed, at cycle 0, or as cleared or formatted at cycle `c`. */
  ghost predicate LogAt(log: seq<byte>, bbs: nat, c: nat) {
    if c == 0 then |log| == bbs * BBSIZE && forall i :: 0 <= i < |log| ==> log[i] == 0
    else exists uuid, sunit :: ClearedBytes(log, bbs, uuid, sunit, c)
  }

  lemma LogAtIsFoundClean(bytes: seq<byte>, log: Log, c: nat)
    requires Shows(bytes, log) && LogAt(bytes, |log|, c) && c < HEADER_MAGIC
    requires c >= 2 ==> |log| % REC_BBS != 1
    ensures FindTail(log).Ok? && !FindTail(log).value.Dirty() && FindTail(log).value.cycle == c
  {
    if c == 0 {
      forall k | 0 <= k < |log|
        ensures log[k].word == 0
      {
        ZeroIsZero(Bb(bytes, k));
      }
      LogTheorems.ZeroedIsClean(log);
    } else {
      var uuid, sunit :| ClearedBytes(bytes, |log|, uuid, sunit, c);
      ClearedIsFoundClean(bytes, log, uuid, sunit, c);
    }
  }

  /** The log in these bytes is as cleared under `uuid` at `cycle`. */
  ghost predicate ClearedIn(flat: seq<byte>, geo: Geo, uuid: Uuid, cycle: nat) {
    && LogByte(geo) + LogLen(geo) <= |flat|
    && ClearedBytes(flat[LogByte(geo)..LogByte(geo) + LogLen(geo)], LogBbs(geo), uuid, geo.logsunit, cycle)
  }

  // ---------------------------------------------------------------------------------------
  // What opening and setting come to.

  /** Why group `agno`'s superblock is not read. */
  ghost function SbError(dev: MemDevice, flat: seq<byte>, geo: Geo, agno: nat): (e: Option<Error>)
    requires geo.Sane() && |flat| == dev.size
    ensures e.None? ==> OnDevice(flat, geo, agno) && GoodAt(flat, geo, agno)
  {
    var asked := dev.Check(SbByte(geo, agno), geo.blocksize);
    if asked.Err? then Some(asked.error)
    else if GoodAt(flat, geo, agno) then None
    else Some(Corrupt)
  }

  /** How much is read before the block size is known: whole sectors of the device. */
  function HeadLen(dev: MemDevice): (n: nat)
    ensures n <= dev.size && (dev.size >= 512 ==> n >= 512) && (dev.size < 512 ==> n == dev.size)
  {
    Min(Max(dev.logical, 512), dev.size)
  }

  ghost function HeadGeo(dev: MemDevice, flat: seq<byte>): (r: Result<Geo>)
    requires |flat| == dev.size >= SuperblockCodec.SB_END
    ensures r.Ok? ==> r.value.Sane()
  {
    var _ :- dev.Check(0, HeadLen(dev));
    SuperblockCodec.Parse(flat[..HeadLen(dev)])
  }

  /** The geometry a filesystem opens with, or why it does not. */
  ghost function Opens(dev: MemDevice, flat: seq<byte>): (r: Result<Geo>)
    requires |flat| == dev.size >= SuperblockCodec.SB_END
    ensures r.Ok? ==> r.value.Sane() && SbError(dev, flat, r.value, 0).None?
  {
    var geo :- HeadGeo(dev, flat);
    var unread := SbError(dev, flat, geo, 0);
    if unread.Some? then Err(unread.value)
    else
      var refused := OpenError(SbAt(flat, geo, 0));
      if refused.Some? then Err(refused.value) else Ok(geo)
  }

  /** Where a run over the superblocks that has rewritten `n` of them ends, if the device fails after `limit`. */
  ghost function Stop(dev: MemDevice, flat: seq<byte>, geo: Geo, n: nat, limit: nat): Result<()>
    requires geo.Sane() && |flat| == dev.size
  {
    if n == geo.agcount then Ok(())
    else if n == limit then Err(Io)
    else
      var e := SbError(dev, flat, geo, n);
      if e.Some? then Err(e.value) else Ok(())
  }

  ghost predicate AllRead(dev: MemDevice, flat: seq<byte>, geo: Geo, n: nat)
    requires geo.Sane() && |flat| == dev.size
  {
    forall i: nat :: i < n ==> SbError(dev, flat, geo, i).None?
  }

  /** The first `n` superblocks of `was` could be read, and the next is where the run ends, with `r`. */
  ghost predicate Ended(
      dev: MemDevice, was: seq<byte>, geo: Geo, n: nat, limit: nat, r: Result<()>)
    requires geo.Sane() && |was| == dev.size
  {
    && n <= Min(limit, geo.agcount) && AllRead(dev, was, geo, n)
    && r == Stop(dev, was, geo, n, limit) && (r.Ok? <==> n == geo.agcount)
  }

  /**
   How giving an open filesystem the UUID `to` ends: first the log is rewritten, which takes the
   bytes from `was` to `mid`, then `n` superblocks, which takes them to `now`.
   */
  ghost predicate Outcome(
      dev: MemDevice, geo: Geo, was: seq<byte>, mid: seq<byte>, now: seq<byte>, to: Uuid, limit: nat,
      tail: Result<LogState>, n: nat, r: Result<()>)
    requires geo.Sane() && |was| == |mid| == dev.size && OnDevice(was, geo, 0)
  {
    // Without a clean log of 4096 blocks or more, nothing is written.
    && (!Clean(tail) ==> r.Err? && now == mid == was)
    && (!Clean(tail) && AcceptsWindows(dev, LogByte(geo), LogBbs(geo)) ==> r == Err(Refusal(tail)))
    // The log moves on before any superblock, and no byte outside it changes until then.
    && SameBut(was, mid, LogByte(geo), LogLen(geo))
    && (r.Ok? || n > 0 ==> Clean(tail) && ClearedIn(mid, geo, to, tail.value.cycle + 1))
    // Then the superblocks, against the primary's metadata UUID, up to the first that fails.
    && n <= Min(limit, geo.agcount) && (r.Ok? ==> n == geo.agcount)
    && Rewrote(mid, now, geo, SbAt(was, geo, 0).Effective(), to, n)
    // With the log rewritten, the result is where the run over the superblocks ends.
    && (Clean(tail) && LogReady(dev, geo) ==>
          if tail.value.cycle > 0 && LogBbs(geo) % REC_BBS == 1 then n == 0 && r == Err(Unsupported)
          else Ended(dev, mid, geo, n, limit, r))
  }

  class Fs {
    const dev: MemDevice
    const geo: Geo
    /** The primary superblock's block. */
    const primary: seq<byte>

    ghost predicate Valid()
      reads this, dev
    {
      dev.Valid() && geo.Sane() && |primary| == geo.blocksize
    }

    constructor (dev: MemDevice, geo: Geo, primary: seq<byte>)
      requires dev.Valid() && geo.Sane() && |primary| == geo.blocksize
      ensures Valid() && this.dev == dev && this.geo == geo && this.primary == primary
    {
      this.dev, this.geo, this.primary := dev, geo, primary;
    }

    /** Refuse a dirty log, and find the cycle of a clean one. */
    method CheckLog() returns (r: Result<LogState>)
      requires Valid()
      ensures r.Err? && r.error.FromDevice() ==> !AcceptsWindows(dev, LogByte(geo), LogBbs(geo))
      ensures !(r.Err? && r.error.FromDevice()) ==>
                r == if LogTail(dev, geo).Ok? && LogTail(dev, geo).value.Dirty() then Err(NeedsRecovery)
                     else LogTail(dev, geo)
    {
      hide FindTail;
      var bbs := LogBbs(geo);
      if bbs < TOTAL_REC_BBS {
        return Err(Unsupported);
      }
      var reader := new LogReader(dev, LogByte(geo), bbs);
      var state :- reader.FindTailState();
      r := if state.Dirty() then Err(NeedsRecovery) else Ok(state);
    }

    /** Refuse a dirty log; rewrite a clean one at the next cycle. `tail` is what the search finds. */
    method Relog(to: Uuid, ghost tail: Result<LogState>) returns (r: Result<()>)
      requires Valid() && LogKnown(geo) && tail == LogTail(dev, geo) && Follows(tail)
      modifies dev
      ensures Valid() && SameBut(old(dev.Contents()), dev.Contents(), LogByte(geo), LogLen(geo))
      ensures r.Ok? ==> Clean(tail) && ClearedIn(dev.Contents(), geo, to, tail.value.cycle + 1)
      ensures !Clean(tail) ==> r.Err? && dev.Contents() == old(dev.Contents())
      ensures !Clean(tail) && AcceptsWindows(dev, LogByte(geo), LogBbs(geo)) ==> r == Err(Refusal(tail))
      ensures Clean(tail) && LogReady(dev, geo) ==>
                if tail.value.cycle > 0 && LogBbs(geo) % REC_BBS == 1 then r == Err(Unsupported) else r.Ok?
    {
      hide FindTail, Ready, AcceptsWindows, ClearedIn, Geo.LogExtent, Geo.Sane;
      var state :- CheckLog();
      r := RewriteLog(to, state.cycle + 1);
    }

    method RewriteLog(to: Uuid, cycle: nat) returns (r: Result<()>)
      requires Valid() && LogKnown(geo) && 1 <= cycle < TWO_32 && LogBbs(geo) >= TOTAL_REC_BBS
      modifies dev
      ensures Valid() && SameBut(old(dev.Contents()), dev.Contents(), LogByte(geo), LogLen(geo))
      ensures r.Ok? ==> ClearedIn(dev.Contents(), geo, to, cycle)
      ensures r.Err? ==> r.error.FromDevice() || r.error == Unsupported
      ensures LogReady(dev, geo) ==>
                if cycle > 1 && LogBbs(geo) % REC_BBS == 1 then r == Err(Unsupported) else r.Ok?
    {
      SaneSizes(geo);
      WindowIsBlocks(geo.blocksize);
      ghost var log;
      hide ClearedBytes, Ready;
      r, log := ClearLog(dev, LogByte(geo), LogBbs(geo), geo.blocksize, geo.logsunit, to, cycle);
      if r.Ok? {
        assert dev.Contents()[LogByte(geo)..LogByte(geo) + LogLen(geo)] == log;
      }
    }

    /** Group `agno`'s superblock block, its magic and checksum checked. */
    method ReadSb(agno: nat) returns (r: Result<array<byte>>)
      requires dev.Valid() && geo.Sane()
      ensures r.Err? ==> SbError(dev, dev.Contents(), geo, agno) == Some(r.error)
      ensures r.Ok? ==>
                && SbError(dev, dev.Contents(), geo, agno).None? && fresh(r.value)
                && r.value[..] == SbBlock(dev.Contents(), geo, agno)
    {
      hide Checksum.Sealed, Geo.Sane, SbByte, Admit, Be32;
      SaneSizes(geo);
      var b := new byte[geo.blocksize];
      var _ :- dev.ReadAt(SbByte(geo, agno), b);
      if Be32(b[..], 0) != SuperblockCodec.SB_MAGIC {
        return Err(Corrupt);
      }
      assert b[..geo.sectsize] == b[..][..geo.sectsize];
      var ok := Checksum.Check(b, geo.sectsize, SuperblockCodec.CRC_OFF);
      r := if ok then Ok(b) else Err(Corrupt);
    }

    /** Write a superblock back, decoded and encoded again. */
    method WriteSb(agno: nat, b: array<byte>) returns (r: Result<()>)
      requires dev.Valid() && geo.Sane() && b.Length == geo.blocksize
      modifies dev, b
      ensures dev.Valid() && SuperblockCodec.SB_END <= geo.sectsize <= geo.blocksize
      ensures r == dev.Check(SbByte(geo, agno), geo.blocksize)
      ensures r.Err? ==> dev.Contents() == old(dev.Contents())
      ensures r.Ok? ==> dev.Contents() == Splice(old(dev.Contents()), SbByte(geo, agno), b[..])
      ensures IsOnDisk(old(b[..]), b[..], geo.sectsize)
    {
      hide IsOnDisk;
      SaneSizes(geo);
      Encode(b, geo.sectsize);
      r := dev.WriteAt(SbByte(geo, agno), b[..]);
    }

    /** Give group `agno`'s superblock `to`. */
    method RestampOne(meta: Uuid, to: Uuid, agno: nat) returns (r: Result<()>)
      requires dev.Valid() && geo.Sane()
      modifies dev
      ensures dev.Valid()
      ensures r.Err? ==>
                SbError(dev, old(dev.Contents()), geo, agno) == Some(r.error) && dev.Contents() == old(dev.Contents())
      ensures r.Ok? ==>
                && SbError(dev, old(dev.Contents()), geo, agno).None? && OnDevice(dev.Contents(), geo, agno)
                && dev.Contents() ==
                   Splice(old(dev.Contents()), SbByte(geo, agno), SbBlock(dev.Contents(), geo, agno))
                && IsRestamped(SbBlock(old(dev.Contents()), geo, agno), SbBlock(dev.Contents(), geo, agno),
                               geo.sectsize, meta, to)
    {
      hide IsIdentified, IsOnDisk, IsRestamped, GoodAt, SbByte;
      SaneSizes(geo);
      var b :- ReadSb(agno);
      ghost var read := b[..];
      Identify(b, meta, to);
      ghost var mid := b[..];
      r := WriteSb(agno, b);
      RestampIsBoth(read, mid, b[..], geo.sectsize, meta, to);
      assert r.Ok? ==> SbBlock(dev.Contents(), geo, agno) == b[..];
    }

    /** The next of a run over the superblocks. */
    method RestampNext(meta: Uuid, to: Uuid, agno: nat, ghost was: seq<byte>) returns (r: Result<()>)
      requires dev.Valid() && geo.Sane() && |was| == dev.size
      requires Rewrote(was, dev.Contents(), geo, meta, to, agno)
      modifies dev
      ensures dev.Valid()
      ensures r.Err? ==> SbError(dev, was, geo, agno) == Some(r.error) && dev.Contents() == old(dev.Contents())
      ensures r.Ok? ==> SbError(dev, was, geo, agno).None? && Rewrote(was, dev.Contents(), geo, meta, to, agno + 1)
    {
      hide Rewrote, IsRestamped, SbBlock, GoodAt, SbByte, Geo.Sane, Splice;
      ghost var before := dev.Contents();
      SaneSizes(geo);
      SameErrors(dev, was, before, geo, meta, to, agno);
      r := RestampOne(meta, to, agno);
      if r.Ok? {
        NextIsUntouched(was, before, geo, meta, to, agno, agno);
        RewroteOneMore(was, before, dev.Contents(), SbBlock(dev.Contents(), geo, agno), geo, meta, to, agno);
      }
    }

    /** Rewrite every group's superblock, primary first, up to the first that fails. */
    method RestampAll(meta: Uuid, to: Uuid, limit: nat) returns (r: Result<()>, n: nat)
      requires dev.Valid() && geo.Sane()
      modifies dev
      ensures dev.Valid() && Rewrote(old(dev.Contents()), dev.Contents(), geo, meta, to, n)
      ensures Ended(dev, old(dev.Contents()), geo, n, limit, r)
    {
      hide Rewrote, SbError, AllRead, Ended, Geo.Sane;
      ghost var was := dev.Contents();
      n := 0;
      RewroteNone(was, geo, meta, to);
      NoneRead(dev, was, geo);
      while n < geo.agcount
        invariant dev.Valid() && |was| == dev.size && n <= Min(limit, geo.agcount)
        invariant Rewrote(was, dev.Contents(), geo, meta, to, n) && AllRead(dev, was, geo, n)
      {
        if n == limit {
          EndsAt(dev, was, geo, n, limit, Err(Io));
          return Err(Io), n;
        }
        r := RestampNext(meta, to, n, was);
        if r.Err? {
          EndsAt(dev, was, geo, n, limit, r);
          return;
        }
        OneMoreRead(dev, was, geo, n);
        n := n + 1;
      }
      r := Ok(());
      EndsAt(dev, was, geo, n, limit, r);
    }

    /** The log, then every superblock. */
    method SetTo(to: Uuid, limit: nat, ghost tail: Result<LogState>)
        returns (r: Result<()>, ghost mid: seq<byte>, ghost n: nat)
      requires Valid() && LogKnown(geo) && tail == LogTail(dev, geo) && Follows(tail)
      requires OnDevice(dev.Contents(), geo, 0) && primary == SbBlock(dev.Contents(), geo, 0)
      modifies dev
      ensures dev.Valid() && |mid| == dev.size
      ensures Outcome(dev, geo, old(dev.Contents()), mid, dev.Contents(), to, limit, tail, n, r)
    {
      hide LogTail, LogKnown, LogReady, ClearedIn, Rewrote, Geo.LogExtent, Geo.Sane, SameBut, AllRead, Stop, SbBlock;
      ghost var was := dev.Contents();
      r := Relog(to, tail);
      mid, n := dev.Contents(), 0;
      if r.Err? {
        StoppedAtLog(dev, geo, was, mid, to, limit, tail, r);
        return;
      }
      SaneSizes(geo);
      assert Sb(primary) == SbAt(was, geo, 0);
      r, n := RestampAll(Sb(primary).Effective(), to, limit);
    }
  }

  /** The log could not be rewritten, and the superblocks are as they were. */
  lemma StoppedAtLog(
      dev: MemDevice, geo: Geo, was: seq<byte>, mid: seq<byte>, to: Uuid, limit: nat, tail: Result<LogState>,
      r: Result<()>)
    requires geo.Sane() && |was| == |mid| == dev.size && OnDevice(was, geo, 0) && r.Err?
    requires SameBut(was, mid, LogByte(geo), LogLen(geo)) && (!Clean(tail) ==> mid == was)
    requires !Clean(tail) && AcceptsWindows(dev, LogByte(geo), LogBbs(geo)) ==> r == Err(Refusal(tail))
    requires Clean(tail) && LogReady(dev, geo) ==>
               tail.value.cycle > 0 && LogBbs(geo) % REC_BBS == 1 && r == Err(Unsupported)
    ensures Outcome(dev, geo, was, mid, mid, to, limit, tail, 0, r)
  {
    RewroteNone(mid, geo, SbAt(was, geo, 0).Effective(), to);
    hide Geo.Sane, Geo.LogExtent, LogReady, Rewrote, SameBut, SbAt, OnDevice, Ended;
  }

  lemma NoneRead(dev: MemDevice, was: seq<byte>, geo: Geo)
    requires geo.Sane() && |was| == dev.size
    ensures AllRead(dev, was, geo, 0)
  {
  }

  lemma OneMoreRead(dev: MemDevice, was: seq<byte>, geo: Geo, n: nat)
    requires geo.Sane() && |was| == dev.size && AllRead(dev, was, geo, n) && SbError(dev, was, geo, n).None?
    ensures AllRead(dev, was, geo, n + 1)
  {
    hide SbError;
  }

  lemma EndsAt(dev: MemDevice, was: seq<byte>, geo: Geo, n: nat, limit: nat, r: Result<()>)
    requires geo.Sane() && |was| == dev.size && AllRead(dev, was, geo, n) && n <= Min(limit, geo.agcount)
    requires if n == geo.agcount then r == Ok(())
             else r.Err? && (if n == limit then r.error == Io else SbError(dev, was, geo, n) == Some(r.error))
    ensures Ended(dev, was, geo, n, limit, r)
  {
    hide SbError;
  }

  /** The geometry the start of the device gives. */
  method ReadGeometry(dev: MemDevice) returns (r: Result<Geo>)
    requires dev.Valid() && SuperblockCodec.SB_END <= dev.size
    ensures r == HeadGeo(dev, dev.Contents())
  {
    hide SuperblockCodec.Parse, Admit;
    var head := new byte[HeadLen(dev)];
    var _ :- dev.ReadAt(0, head);
    assert head[..] == dev.Contents()[..HeadLen(dev)];
    r := SuperblockCodec.Parse(head[..]);
  }

  /** Read and check the primary superblock, and refuse what is not known. */
  method Open(dev: MemDevice) returns (r: Result<Fs>)
    requires dev.Valid() && SuperblockCodec.SB_END <= dev.size
    ensures r.Err? ==> Opens(dev, dev.Contents()) == Err(r.error)
    ensures r.Ok? ==>
              && fresh(r.value) && r.value.Valid() && r.value.dev == dev
              && Opens(dev, dev.Contents()) == Ok(r.value.geo)
              && r.value.primary == SbBlock(dev.Contents(), r.value.geo, 0)
    // Neither marked for repair, nor of unknown features, with a realtime device or an external log.
    ensures r.Ok? ==>
              var b := r.value.primary;
              && SuperblockCodec.SB_END <= |b| && Be32(b, 216) / 0x10 % 2 == 0 && Be32(b, 216) < 0x40
              && Be64(b, 16) == 0 && Be64(b, 48) != 0
  {
    hide Be32, Be64;
    hide GoodAt, Geo.Sane, OpenError, HeadGeo, SbError;
    var geo :- ReadGeometry(dev);
    SaneSizes(geo);
    var fs := new Fs(dev, geo, seq(geo.blocksize, _ => 0));
    var p :- fs.ReadSb(0);
    var refused := OpenError(Sb(p[..]));
    if refused.Some? {
      return Err(refused.value);
    }
    RefusedInBytes(p[..]);
    fs := new Fs(dev, geo, p[..]);
    r := Ok(fs);
  }

  /** Give the filesystem the UUID `to`; the device fails once `limit` superblocks are rewritten. */
  method SetUuid(dev: MemDevice, to: Uuid, limit: nat, ghost tail: Result<LogState>)
      returns (r: Result<()>, ghost mid: seq<byte>, ghost n: nat)
    requires dev.Valid() && SuperblockCodec.SB_END <= dev.size
    requires var o := Opens(dev, dev.Contents());
             o.Ok? ==> LogKnown(o.value) && tail == LogTail(dev, o.value) && Follows(tail)
    modifies dev
    ensures dev.Valid() && |mid| == dev.size
    ensures var o := old(Opens(dev, dev.Contents()));
            if o.Err? then r == Err(o.error) && dev.Contents() == mid == old(dev.Contents()) && n == 0
            else Outcome(dev, o.value, old(dev.Contents()), mid, dev.Contents(), to, limit, tail, n, r)
    ensures Called(dev, old(dev.Contents()), dev.Contents())
  {
    hide Opens, LogTail, LogKnown, Outcome;
    mid, n := dev.Contents(), 0;
    var fs :- Open(dev);
    r, mid, n := fs.SetTo(to, limit, tail);
  }

  /** Give the filesystem back the UUID its metadata carries; `false` when it was never changed. */
  method RestoreUuid(dev: MemDevice, limit: nat, ghost tail: Result<LogState>)
      returns (r: Result<bool>, ghost mid: seq<byte>, ghost n: nat)
    requires dev.Valid() && SuperblockCodec.SB_END <= dev.size
    requires var o := Opens(dev, dev.Contents());
             o.Ok? ==> LogKnown(o.value) && tail == LogTail(dev, o.value) && Follows(tail)
    modifies dev
    ensures dev.Valid() && |mid| == dev.size
    ensures var o, was := old(Opens(dev, dev.Contents())), old(dev.Contents());
            if o.Err? then r == Err(o.error) && dev.Contents() == was
            else if !SbAt(was, o.value, 0).HasMeta() then r == Ok(false) && dev.Contents() == was
            else
              && (r.Ok? ==> r.value)
              && Outcome(dev, o.value, was, mid, dev.Contents(), SbAt(was, o.value, 0).metaUuid, limit, tail, n,
                         if r.Ok? then Ok(()) else Err(r.error))
    ensures Called(dev, old(dev.Contents()), dev.Contents())
  {
    hide Opens, LogTail, LogKnown, Outcome, Geo.Sane, Sb, SbBlock, GoodAt, OnDevice, Fs.Valid;
    mid, n := dev.Contents(), 0;
    var fs :- Open(dev);
    SaneSizes(fs.geo);
    var primary := Sb(fs.primary);
    if !primary.HasMeta() {
      return Ok(false), mid, n;
    }
    var done;
    done, mid, n := SetUuid(dev, primary.metaUuid, limit, tail);
    r := if done.Ok? then Ok(true) else Err(done.error);
    assert done.Ok? ==> done.value == ();
  }

  // ---------------------------------------------------------------------------------------
  // On a filesystem whose superblocks are clear of its log.

  predicate Apart(geo: Geo) {
    ClearOf(geo, LogByte(geo), LogLen(geo))
  }

  lemma LogLeavesSbs(was: seq<byte>, mid: seq<byte>, geo: Geo)
    requires geo.Sane() && SameBut(was, mid, LogByte(geo), LogLen(geo)) && Apart(geo) && AllOnDevice(was, geo)
    ensures AllOnDevice(mid, geo) && Sbs(mid, geo) == Sbs(was, geo)
  {
    hide Geo.Sane, Geo.LogExtent, Sb;
    forall i: nat | i < geo.agcount
      ensures OnDevice(mid, geo, i) && SbAt(mid, geo, i) == SbAt(was, geo, i)
    {
      assert OnDevice(was, geo, i);
      ClearBlock(was, mid, geo, LogByte(geo), LogLen(geo), i);
    }
  }

  /** However a set ends, the superblocks have gone through one step of the commands. */
  lemma OutcomeIsStep(
      dev: MemDevice, geo: Geo, was: seq<byte>, mid: seq<byte>, now: seq<byte>, to: Uuid, limit: nat,
      tail: Result<LogState>, n: nat, r: Result<()>)
    requires geo.Sane() && |was| == |mid| == dev.size && AllOnDevice(was, geo) && OnDevice(was, geo, 0)
    requires Outcome(dev, geo, was, mid, now, to, limit, tail, n, r)
    requires Apart(geo) && OpenError(SbAt(was, geo, 0)).None?
    ensures AllOnDevice(now, geo) && Sbs(now, geo) == Step(Sbs(was, geo), Set(to, n))
    ensures SbAt(was, geo, 0).HasMeta() && to == SbAt(was, geo, 0).metaUuid ==>
              Sbs(now, geo) == Step(Sbs(was, geo), Restore(n))
  {
    hide Geo.Sane, Geo.LogExtent, Rewrote, SameBut, Ended, LogReady, ClearedIn, OpenError, ClearOf, OnDevice;
    hide Superblock.Restamped, SbAt;
    LogLeavesSbs(was, mid, geo);
    RewroteIsRestamped(mid, now, geo, SbAt(was, geo, 0).Effective(), to, n);
    assert Sbs(was, geo)[0] == SbAt(was, geo, 0);
  }

  /** The log stays as it was rewritten, and nothing but the log and the superblocks changes. */
  lemma OutcomeElsewhere(
      dev: MemDevice, geo: Geo, was: seq<byte>, mid: seq<byte>, now: seq<byte>, to: Uuid, limit: nat,
      tail: Result<LogState>, n: nat, r: Result<()>)
    requires geo.Sane() && |was| == |mid| == dev.size && OnDevice(was, geo, 0) && Apart(geo)
    requires Outcome(dev, geo, was, mid, now, to, limit, tail, n, r)
    ensures r.Ok? || n > 0 ==> ClearedIn(now, geo, to, tail.value.cycle + 1)
    ensures SameElsewhere(was, now, geo)
  {
    hide Geo.Sane, Geo.LogExtent, Ended, LogReady, ClearOf, OnDevice, SbAt, ClearedBytes;
    var start, len := LogByte(geo), LogLen(geo);
    ClearOfRewrite(mid, now, geo, SbAt(was, geo, 0).Effective(), to, n, start, len);
    if r.Ok? || n > 0 {
      assert now[start..start + len] == mid[start..start + len];
    }
    forall j | 0 <= j < |was| && Elsewhere(geo, j)
      ensures now[j] == was[j]
    {
      assert Beyond(geo, n, j);
    }
  }

  /** In neither the log nor a superblock's block. */
  predicate Elsewhere(geo: Geo, j: nat) {
    !(LogByte(geo) <= j < LogByte(geo) + LogLen(geo)) && Beyond(geo, geo.agcount, j)
  }

  lemma LogSameShape(g: Geo, h: Geo)
    requires g.Shape() == h.Shape() && g.blocksize > 0
    ensures LogByte(g) == LogByte(h) && LogBbs(g) == LogBbs(h) && g.logsunit == h.logsunit
  {
  }

  /** The primary is read as it was, wherever the log went, and rewritten superblocks are read again. */
  lemma StillRead(
      dev: MemDevice, was: seq<byte>, mid: seq<byte>, now: seq<byte>, geo: Geo, meta: Uuid, to: Uuid, n: nat, i: nat)
    requires geo.Sane() && |was| == |mid| == dev.size && SameBut(was, mid, LogByte(geo), LogLen(geo)) && Apart(geo)
    requires Rewrote(mid, now, geo, meta, to, n) && i < geo.agcount
    requires SbError(dev, was, geo, i).None?
    ensures |now| == dev.size && SbError(dev, mid, geo, i).None? && SbError(dev, now, geo, i).None?
  {
    hide Geo.Sane, Geo.LogExtent, Rewrote, SameBut, ClearOf, SbByte, Good;
    ClearBlock(was, mid, geo, LogByte(geo), LogLen(geo), i);
    RewroteSb(mid, now, geo, meta, to, n, i);
    RewroteLength(mid, now, geo, meta, to, n);
  }

  /** The start of the device still parses, to the same shape. */
  lemma HeadParses(
      was: seq<byte>, mid: seq<byte>, now: seq<byte>, geo: Geo, meta: Uuid, to: Uuid, n: nat, len: nat)
    requires geo.Sane() && |was| == |mid| == |now| && OnDevice(was, geo, 0)
    requires SameBut(was, mid, LogByte(geo), LogLen(geo)) && Apart(geo) && Rewrote(mid, now, geo, meta, to, n)
    requires SuperblockCodec.SB_END <= len <= |was| && SuperblockCodec.Parse(was[..len]) == Ok(geo)
    ensures SuperblockCodec.Parse(now[..len]).Ok?
    ensures SuperblockCodec.Parse(now[..len]).value.Shape() == geo.Shape()
  {
    SaneSizes(geo);
    hide Geo.Sane, Geo.LogExtent, Rewrote, SameBut, ClearOf, SuperblockCodec.Parse, Geo.Shape;
    assert SbByte(geo, 0) == 0;
    ClearBlock(was, mid, geo, LogByte(geo), LogLen(geo), 0);
    forall i: nat | i < SuperblockCodec.SB_END && !RewrittenByte(i)
      ensures was[..len][i] == now[..len][i]
    {
      assert SbBlock(was, geo, 0)[i] == was[i] && SbBlock(mid, geo, 0)[i] == mid[i];
      PrimaryKept(mid, now, geo, meta, to, n, i);
    }
    ParsesAgain(was[..len], now[..len]);
  }

  /** A filesystem that opens does so again however a set on it ended, in the same shape. */
  lemma Reopens(
      dev: MemDevice, geo: Geo, was: seq<byte>, mid: seq<byte>, now: seq<byte>, to: Uuid, n: nat) returns (after: Geo)
    requires |was| == |mid| == dev.size >= SuperblockCodec.SB_END && Opens(dev, was) == Ok(geo) && Apart(geo)
    requires SameBut(was, mid, LogByte(geo), LogLen(geo))
    requires Rewrote(mid, now, geo, SbAt(was, geo, 0).Effective(), to, n)
    ensures |now| == dev.size && Opens(dev, now) == Ok(after) && after.Shape() == geo.Shape()
  {
    var meta := SbAt(was, geo, 0).Effective();
    RewroteLength(mid, now, geo, meta, to, n);
    SaneSizes(geo);
    HeadParses(was, mid, now, geo, meta, to, n, HeadLen(dev));
    after := SuperblockCodec.Parse(now[..HeadLen(dev)]).value;
    StillRead(dev, was, mid, now, geo, meta, to, n, 0);
    hide Geo.Sane, Geo.Shape, Geo.LogExtent, Rewrote, SameBut, ClearOf, SbByte, GoodAt, SuperblockCodec.Parse, Sb;
    ClearBlock(was, mid, geo, LogByte(geo), LogLen(geo), 0);
    RewroteSb(mid, now, geo, meta, to, n, 0);
    RestampedKeepsOpen(SbAt(was, geo, 0), meta, to);
    SameShape(now, geo, after, 0);
  }

  lemma RewroteLength(was: seq<byte>, now: seq<byte>, geo: Geo, meta: Uuid, to: Uuid, n: nat)
    requires Rewrote(was, now, geo, meta, to, n)
    ensures |was| == |now|
  {
  }

  // ---------------------------------------------------------------------------------------
  // Every run.

  /** What a geometry and its device need for a log to be rewritten any number of times. */
  ghost predicate Suits(dev: MemDevice, geo: Geo) {
    && geo.Sane() && LogKnown(geo) && LogReady(dev, geo) && Apart(geo)
    && LogBbs(geo) >= TOTAL_REC_BBS && LogBbs(geo) % REC_BBS != 1
  }

  /** `now` is what some call of `set_uuid` or `restore_uuid` can leave of `was`, whatever its result. */
  ghost predicate Called(dev: MemDevice, was: seq<byte>, now: seq<byte>)
    requires |was| == dev.size >= SuperblockCodec.SB_END
  {
    || now == was
    || exists mid: seq<byte>, to: Uuid, limit: nat, tail: Result<LogState>, n: nat, r: Result<()> ::
         && Opens(dev, was).Ok? && |mid| == dev.size
         && Outcome(dev, Opens(dev, was).value, was, mid, now, to, limit, tail, n, r)
  }

  /** It opens in this shape, and every group's metadata carries `meta`. */
  ghost predicate Carries(dev: MemDevice, flat: seq<byte>, geo: Geo, meta: Uuid)
    requires geo.Sane()
  {
    && |flat| == dev.size >= SuperblockCodec.SB_END && Opens(dev, flat).Ok?
    && Opens(dev, flat).value.Shape() == geo.Shape()
    && AllOnDevice(flat, geo) && AllEffective(Sbs(flat, geo), meta)
  }

  lemma CallKeeps(dev: MemDevice, was: seq<byte>, now: seq<byte>, geo: Geo, meta: Uuid)
    requires geo.Sane() && Apart(geo) && Carries(dev, was, geo, meta) && Called(dev, was, now)
    ensures Carries(dev, now, geo, meta) && SameElsewhere(was, now, geo)
  {
    hide Outcome, Geo.Sane, Geo.Shape, LogByte, LogBbs, AllOnDevice, AllEffective, Sbs, Opens, SameElsewhere;
    if now == was {
      SameEverywhere(was, geo);
    } else {
      var cur := Opens(dev, was).value;
      var mid: seq<byte>, to: Uuid, limit: nat, tail: Result<LogState>, n: nat, r: Result<()> :|
        |mid| == dev.size && Outcome(dev, cur, was, mid, now, to, limit, tail, n, r);
      OutcomeKeeps(dev, was, mid, now, geo, cur, meta, to, limit, tail, n, r);
    }
  }

  lemma ApartAgain(dev: MemDevice, was: seq<byte>, geo: Geo, cur: Geo)
    requires geo.Sane() && Apart(geo) && cur.Shape() == geo.Shape()
    requires |was| == dev.size >= SuperblockCodec.SB_END && Opens(dev, was) == Ok(cur)
    ensures cur.Sane() && Apart(cur) && OnDevice(was, cur, 0) && OpenError(SbAt(was, cur, 0)).None?
  {
    hide Geo.Sane, Geo.Shape, HeadGeo, SbError, OpenError, ClearOf, LogByte, LogBbs, OnDevice, SbAt;
    SaneSizes(geo);
    SameShape(was, geo, cur, 0);
    ShapeIsApart(geo, cur, LogByte(geo), LogLen(geo));
    LogSameShape(geo, cur);
  }

  lemma OutcomeReopens(
      dev: MemDevice, geo: Geo, was: seq<byte>, mid: seq<byte>, now: seq<byte>, to: Uuid, limit: nat,
      tail: Result<LogState>, n: nat, r: Result<()>) returns (after: Geo)
    requires |was| == |mid| == dev.size >= SuperblockCodec.SB_END && Opens(dev, was) == Ok(geo) && Apart(geo)
    requires Outcome(dev, geo, was, mid, now, to, limit, tail, n, r)
    ensures |now| == dev.size && Opens(dev, now) == Ok(after) && after.Shape() == geo.Shape()
  {
    hide Opens, Geo.Sane, Geo.Shape, LogReady, ClearedIn, Rewrote, SameBut, Ended, SbAt, Apart, LogByte, LogBbs;
    after := Reopens(dev, geo, was, mid, now, to, n);
  }

  lemma OutcomeKeeps(
      dev: MemDevice, was: seq<byte>, mid: seq<byte>, now: seq<byte>, geo: Geo, cur: Geo, meta: Uuid, to: Uuid,
      limit: nat, tail: Result<LogState>, n: nat, r: Result<()>)
    requires geo.Sane() && Apart(geo) && Carries(dev, was, geo, meta) && Opens(dev, was) == Ok(cur)
    requires |mid| == dev.size && Outcome(dev, cur, was, mid, now, to, limit, tail, n, r)
    ensures Carries(dev, now, geo, meta) && SameElsewhere(was, now, geo)
  {
    hide Outcome, Geo.Sane, Geo.Shape, ClearedIn, AllEffective, SbAt;
    hide Opens, OpenError, Apart, LogByte, LogBbs, AllOnDevice, OnDevice, Step, SameElsewhere, Elsewhere;
    ApartAgain(dev, was, geo, cur);
    SbsSameShape(was, geo, cur);
    OutcomeIsStep(dev, cur, was, mid, now, to, limit, tail, n, r);
    var after := OutcomeReopens(dev, cur, was, mid, now, to, limit, tail, n, r);
    OutcomeElsewhere(dev, cur, was, mid, now, to, limit, tail, n, r);
    ElsewhereSameShape(was, now, cur, geo);
    SbsSameShape(now, cur, geo);
    OneStepKeeps(Sbs(was, geo), Set(to, n), meta);
  }

  lemma OneStepKeeps(sbs: seq<Superblock>, cmd: Command, meta: Uuid)
    requires sbs != [] && AllEffective(sbs, meta)
    ensures AllEffective(Step(sbs, cmd), meta)
  {
    EffectiveForever(sbs, [cmd], meta);
    assert [cmd][..0] == [];
    NoHistory(sbs);
  }

  /**
   Over every run of calls on the device, refused, cut short in the log, stopped at a bad superblock or
   complete: the filesystem still opens in the geometry it had, every group's metadata UUID is what it
   was, and no byte outside the log and the superblocks' blocks has changed.
   */
  lemma {:induction false} EveryRunKeeps(dev: MemDevice, flats: seq<seq<byte>>, geo: Geo, meta: Uuid)
    requires geo.Sane() && Apart(geo) && flats != [] && Carries(dev, flats[0], geo, meta)
    requires forall i :: 0 <= i < |flats| ==> |flats[i]| == dev.size
    requires forall i :: 0 < i < |flats| ==> Called(dev, flats[i - 1], flats[i])
    ensures Carries(dev, flats[|flats| - 1], geo, meta) && SameElsewhere(flats[0], flats[|flats| - 1], geo)
  {
    hide Geo.Sane, Apart, Carries, Called, SameElsewhere;
    if |flats| == 1 {
      SameEverywhere(flats[0], geo);
    } else {
      var n := |flats| - 1;
      EveryRunKeeps(dev, flats[..n], geo, meta);
      CallKeeps(dev, flats[n - 1], flats[n], geo, meta);
      SameElsewhereTwice(flats[0], flats[n - 1], flats[n], geo);
    }
  }

  lemma SuitsIsSane(dev: MemDevice, geo: Geo)
    requires Suits(dev, geo)
    ensures geo.Sane()
  {
  }

  /** The filesystem opens, every superblock is good, and the log is clean at cycle `c`. */
  ghost predicate Standing(dev: MemDevice, flat: seq<byte>, geo: Geo, c: nat) {
    && |flat| == dev.size >= SuperblockCodec.SB_END
    && Opens(dev, flat) == Ok(geo) && AllRead(dev, flat, geo, geo.agcount)
    && LogByte(geo) + LogLen(geo) <= |flat|
    && LogAt(flat[LogByte(geo)..LogByte(geo) + LogLen(geo)], LogBbs(geo), c)
  }

  lemma StandingIsClean(dev: MemDevice, geo: Geo, c: nat)
    requires dev.Valid() && Standing(dev, dev.Contents(), geo, c) && c < HEADER_MAGIC
    requires LogBbs(geo) >= TOTAL_REC_BBS && LogBbs(geo) % REC_BBS != 1
    ensures Clean(LogTail(dev, geo)) && LogTail(dev, geo).value.cycle == c
  {
    hide FindTail, LogAt, Opens, AllRead, LogByte, LogBbs, Geo.Sane, Extent, Decoded;
    var log := LogBytes(dev, geo);
    ExtentIsContents(dev, LogByte(geo), LogBbs(geo), 0, LogLen(geo));
    assert log[0..LogLen(geo)] == log;
    CleanAt(log, LogBbs(geo), c);
  }

  lemma CleanAt(log: seq<byte>, bbs: nat, c: nat)
    requires |log| == bbs * BBSIZE && bbs >= TOTAL_REC_BBS && bbs % REC_BBS != 1
    requires LogAt(log, bbs, c) && c < HEADER_MAGIC
    ensures Clean(FindTail(Decoded(log))) && FindTail(Decoded(log)).value.cycle == c
  {
    hide FindTail, LogAt;
    LogAtIsFoundClean(log, Decoded(log), c);
  }

  lemma AllStillRead(
      dev: MemDevice, geo: Geo, was: seq<byte>, mid: seq<byte>, now: seq<byte>, meta: Uuid, to: Uuid, n: nat)
    requires geo.Sane() && |was| == |mid| == dev.size && SameBut(was, mid, LogByte(geo), LogLen(geo)) && Apart(geo)
    requires Rewrote(mid, now, geo, meta, to, n) && AllRead(dev, was, geo, geo.agcount)
    ensures |now| == dev.size && AllRead(dev, mid, geo, geo.agcount) && AllRead(dev, now, geo, geo.agcount)
  {
    hide Geo.Sane, Geo.LogExtent, Rewrote, SameBut, ClearOf, SbError;
    RewroteLength(mid, now, geo, meta, to, n);
    forall i: nat | i < geo.agcount
      ensures SbError(dev, mid, geo, i).None? && SbError(dev, now, geo, i).None?
    {
      StillRead(dev, was, mid, now, geo, meta, to, n, i);
    }
  }

  lemma EndsWhereAllRead(dev: MemDevice, was: seq<byte>, geo: Geo, n: nat, limit: nat, r: Result<()>)
    requires geo.Sane() && |was| == dev.size && AllRead(dev, was, geo, geo.agcount) && limit >= geo.agcount
    requires Ended(dev, was, geo, n, limit, r)
    ensures r.Ok? && n == geo.agcount
  {
    hide Geo.Sane, SbError;
  }

  /** From a standing filesystem a set goes through, and leaves it standing a cycle on. */
  lemma SetGoesThrough(
      dev: MemDevice, geo: Geo, was: seq<byte>, mid: seq<byte>, now: seq<byte>, to: Uuid, limit: nat,
      tail: Result<LogState>, n: nat, r: Result<()>, c: nat) returns (after: Geo)
    requires Suits(dev, geo) && Standing(dev, was, geo, c) && Clean(tail) && tail.value.cycle == c
    requires |mid| == dev.size && limit >= geo.agcount
    requires Outcome(dev, geo, was, mid, now, to, limit, tail, n, r)
    ensures r.Ok? && n == geo.agcount && Standing(dev, now, after, c + 1) && after.Shape() == geo.Shape()
    ensures Suits(dev, after)
  {
    hide Geo.Sane, Geo.LogExtent, Geo.Shape, Rewrote, SameBut, LogReady, LogKnown, ClearedIn, ClearOf, SbAt;
    hide OnDevice, LogAt, Opens, AllRead, SbError;
    AllStillRead(dev, geo, was, mid, now, SbAt(was, geo, 0).Effective(), to, n);
    EndsWhereAllRead(dev, mid, geo, n, limit, r);
    after := Reopens(dev, geo, was, mid, now, to, n);
    OutcomeElsewhere(dev, geo, was, mid, now, to, limit, tail, n, r);
    StandsAgain(dev, geo, after, now, to, c + 1);
  }

  lemma ShapeIsApart(geo: Geo, after: Geo, start: nat, len: nat)
    requires geo.Sane() && after.Shape() == geo.Shape() && ClearOf(geo, start, len)
    ensures ClearOf(after, start, len)
  {
    hide Geo.Sane, Geo.Shape, SbByte;
    forall i: nat | i < after.agcount
      ensures SbByte(after, i) + after.blocksize <= start || start + len <= SbByte(after, i)
    {
      SameShape([], geo, after, i);
      var _ := SbByte(geo, i);
    }
  }

  lemma ShapeSuits(dev: MemDevice, geo: Geo, after: Geo)
    requires Suits(dev, geo) && after.Shape() == geo.Shape()
    ensures Suits(dev, after) && LogByte(geo) == LogByte(after) && LogBbs(geo) == LogBbs(after)
    ensures geo.logsunit == after.logsunit
  {
    SaneSizes(geo);
    LogSameShape(geo, after);
    hide Geo.Sane, Geo.LogExtent, Geo.Shape, ClearOf, Ready, AcceptsWindows;
    SameShape([], geo, after, 0);
    ShapeIsApart(geo, after, LogByte(geo), LogLen(geo));
  }

  lemma ShapeIsRead(dev: MemDevice, flat: seq<byte>, geo: Geo, after: Geo)
    requires geo.Sane() && after.Shape() == geo.Shape() && |flat| == dev.size && AllRead(dev, flat, geo, geo.agcount)
    ensures after.Sane() && AllRead(dev, flat, after, after.agcount)
  {
    hide Geo.Sane, Geo.Shape, GoodAt, SbByte;
    SameShape(flat, geo, after, 0);
    forall i: nat | i < after.agcount
      ensures SbError(dev, flat, after, i).None?
    {
      assert SbError(dev, flat, geo, i).None?;
      SameShape(flat, geo, after, i);
    }
  }

  lemma ClearedIsAt(flat: seq<byte>, geo: Geo, uuid: Uuid, c: nat)
    requires ClearedIn(flat, geo, uuid, c) && c > 0
    ensures LogByte(geo) + LogLen(geo) <= |flat|
    ensures LogAt(flat[LogByte(geo)..LogByte(geo) + LogLen(geo)], LogBbs(geo), c)
  {
    hide LogByte, LogBbs, ClearedBytes;
  }

  lemma StandsAgain(dev: MemDevice, geo: Geo, after: Geo, now: seq<byte>, to: Uuid, c: nat)
    requires Suits(dev, geo) && after.Shape() == geo.Shape() && c > 0
    requires |now| == dev.size >= SuperblockCodec.SB_END && Opens(dev, now) == Ok(after)
    requires AllRead(dev, now, geo, geo.agcount) && ClearedIn(now, geo, to, c)
    ensures Standing(dev, now, after, c) && Suits(dev, after)
  {
    hide Geo.Sane, LogByte, LogBbs, Geo.Shape, Opens, ClearedIn, AllRead, LogAt, SbError, LogKnown, LogReady, Apart;
    ShapeSuits(dev, geo, after);
    ShapeIsRead(dev, now, geo, after);
    ClearedIsAt(now, geo, to, c);
  }

  /** One set on a standing filesystem: it succeeds, and leaves it standing a cycle on. */
  method SetOnce(dev: MemDevice, to: Uuid, limit: nat, ghost geo: Geo, ghost c: nat)
      returns (r: Result<()>, ghost after: Geo)
    requires dev.Valid() && Suits(dev, geo) && Standing(dev, dev.Contents(), geo, c) && c + 1 < HEADER_MAGIC
    requires limit >= geo.agcount && AllOnDevice(dev.Contents(), geo)
    modifies dev
    ensures dev.Valid() && r.Ok? && Suits(dev, after) && after.Shape() == geo.Shape()
    ensures Standing(dev, dev.Contents(), after, c + 1)
    ensures AllOnDevice(dev.Contents(), geo)
    ensures Sbs(dev.Contents(), geo) == Step(old(Sbs(dev.Contents(), geo)), Set(to, geo.agcount))
    ensures SameElsewhere(old(dev.Contents()), dev.Contents(), geo)
  {
    hide LogAt, LogByte, LogBbs, Geo.Sane, Geo.Shape, SbAt, SbError, Outcome, LogTail, AllRead, LogReady, Apart;
    hide AllOnDevice, OnDevice, Step, SameElsewhere;
    ghost var was := dev.Contents();
    StandingIsClean(dev, geo, c);
    ghost var tail := LogTail(dev, geo);
    ghost var mid, n;
    r, mid, n := SetUuid(dev, to, limit, tail);
    ghost var now := dev.Contents();
    after := StepGoesThrough(dev, geo, was, mid, now, to, limit, tail, n, r, c);
  }

  /** One restore on a standing filesystem: it does what a set does, or there is nothing to do. */
  method RestoreOnce(dev: MemDevice, limit: nat, ghost geo: Geo, ghost c: nat)
      returns (r: Result<bool>, ghost after: Geo)
    requires dev.Valid() && Suits(dev, geo) && Standing(dev, dev.Contents(), geo, c) && c + 1 < HEADER_MAGIC
    requires limit >= geo.agcount && AllOnDevice(dev.Contents(), geo) && OnDevice(dev.Contents(), geo, 0)
    modifies dev
    ensures dev.Valid() && r == Ok(old(SbAt(dev.Contents(), geo, 0)).HasMeta())
    ensures Suits(dev, after) && after.Shape() == geo.Shape()
    ensures Standing(dev, dev.Contents(), after, if r.value then c + 1 else c)
    ensures AllOnDevice(dev.Contents(), geo)
    ensures Sbs(dev.Contents(), geo) == Step(old(Sbs(dev.Contents(), geo)), Restore(geo.agcount))
    ensures SameElsewhere(old(dev.Contents()), dev.Contents(), geo)
  {
    hide LogAt, LogByte, LogBbs, Geo.Sane, Geo.Shape, SbAt, SbError, Outcome, LogTail, AllRead, LogReady, Apart;
    hide AllOnDevice, OnDevice, Step, SameElsewhere, HeadGeo;
    ghost var was := dev.Contents();
    StandingIsClean(dev, geo, c);
    ghost var tail := LogTail(dev, geo);
    ghost var mid, n;
    r, mid, n := RestoreUuid(dev, limit, tail);
    after := geo;
    if SbAt(was, geo, 0).HasMeta() {
      ghost var done := if r.Ok? then Ok(()) else Err(r.error);
      after := StepGoesThrough(
        dev, geo, was, mid, dev.Contents(), SbAt(was, geo, 0).metaUuid, limit, tail, n, done, c);
    } else {
      NothingToRestore(was, geo);
    }
  }

  lemma NothingToRestore(flat: seq<byte>, geo: Geo)
    requires geo.Sane() && AllOnDevice(flat, geo) && OnDevice(flat, geo, 0) && !SbAt(flat, geo, 0).HasMeta()
    ensures Sbs(flat, geo) == Step(Sbs(flat, geo), Restore(geo.agcount)) && SameElsewhere(flat, flat, geo)
  {
    hide Geo.Sane, SbAt, OpenError, Elsewhere, OnDevice;
    assert Sbs(flat, geo)[0] == SbAt(flat, geo, 0);
  }

  lemma StepGoesThrough(
      dev: MemDevice, geo: Geo, was: seq<byte>, mid: seq<byte>, now: seq<byte>, to: Uuid, limit: nat,
      tail: Result<LogState>, n: nat, r: Result<()>, c: nat) returns (after: Geo)
    requires Suits(dev, geo) && Standing(dev, was, geo, c) && Clean(tail) && tail.value.cycle == c
    requires |mid| == dev.size && limit >= geo.agcount && AllOnDevice(was, geo)
    requires Outcome(dev, geo, was, mid, now, to, limit, tail, n, r)
    ensures r.Ok? && n == geo.agcount && Standing(dev, now, after, c + 1) && after.Shape() == geo.Shape()
    ensures Suits(dev, after) && AllOnDevice(now, geo) && SameElsewhere(was, now, geo)
    ensures Sbs(now, geo) == Step(Sbs(was, geo), Set(to, geo.agcount))
    ensures SbAt(was, geo, 0).HasMeta() && to == SbAt(was, geo, 0).metaUuid ==>
              Sbs(now, geo) == Step(Sbs(was, geo), Restore(geo.agcount))
  {
    hide LogAt, LogByte, LogBbs, Geo.Sane, Geo.Shape, SbAt, SbError, Outcome, AllRead, LogReady, Apart;
    hide AllOnDevice, OnDevice, Step, Elsewhere, OpenError, HeadGeo, LogKnown, ClearedIn;
    after := SetGoesThrough(dev, geo, was, mid, now, to, limit, tail, n, r, c);
    OutcomeIsStep(dev, geo, was, mid, now, to, limit, tail, n, r);
    OutcomeElsewhere(dev, geo, was, mid, now, to, limit, tail, n, r);
  }

  /** The next of a run: in the shape `geo` at first, now in that of `cur`. */
  method SetNext(dev: MemDevice, to: Uuid, limit: nat, ghost geo: Geo, ghost cur: Geo, ghost c: nat)
      returns (r: Result<()>, ghost after: Geo)
    requires dev.Valid() && Suits(dev, cur) && Standing(dev, dev.Contents(), cur, c) && c + 1 < HEADER_MAGIC
    requires geo.Sane() && cur.Shape() == geo.Shape() && limit >= geo.agcount && AllOnDevice(dev.Contents(), geo)
    modifies dev
    ensures dev.Valid() && r.Ok? && Suits(dev, after) && after.Shape() == geo.Shape()
    ensures Standing(dev, dev.Contents(), after, c + 1)
    ensures AllOnDevice(dev.Contents(), geo)
    ensures Sbs(dev.Contents(), geo) == Step(old(Sbs(dev.Contents(), geo)), Set(to, geo.agcount))
    ensures SameElsewhere(old(dev.Contents()), dev.Contents(), geo)
  {
    hide Standing, Geo.Sane, Geo.Shape, SameElsewhere, AllOnDevice, Step, LogKnown, LogReady, Apart;
    ghost var was := dev.Contents();
    SameShape(was, geo, cur, 0);
    SbsSameShape(was, geo, cur);
    r, after := SetOnce(dev, to, limit, cur, c);
    SbsSameShape(dev.Contents(), cur, geo);
    ElsewhereSameShape(was, dev.Contents(), cur, geo);
  }

  /** No byte changed outside the log and the superblocks' blocks. */
  ghost predicate SameElsewhere(was: seq<byte>, now: seq<byte>, geo: Geo) {
    |was| == |now| && forall j :: 0 <= j < |was| && Elsewhere(geo, j) ==> now[j] == was[j]
  }

  /**
   Every run of `set_uuid`, from a filesystem whose log is zeroed, formatted or cleared at cycle `c`:
   each call succeeds, whatever the UUIDs, and moves the log to exactly the next cycle; the
   superblocks go through the same history as their values, and no other byte changes.
   */
  method SetUuids(dev: MemDevice, tos: seq<Uuid>, limit: nat, ghost geo: Geo, ghost c: nat)
      returns (r: Result<()>, ghost after: Geo)
    requires dev.Valid() && Suits(dev, geo) && Standing(dev, dev.Contents(), geo, c) && c + |tos| < HEADER_MAGIC
    requires limit >= geo.agcount && AllOnDevice(dev.Contents(), geo)
    modifies dev
    ensures dev.Valid() && r.Ok? && after.Shape() == geo.Shape()
    ensures Standing(dev, dev.Contents(), after, c + |tos|)
    ensures AllOnDevice(dev.Contents(), geo)
    ensures Sbs(dev.Contents(), geo) == History(old(Sbs(dev.Contents(), geo)), Sets(tos, geo.agcount))
    ensures SameElsewhere(old(dev.Contents()), dev.Contents(), geo)
  {
    hide Standing, LogKnown, LogReady, Apart, Geo.Sane, Geo.Shape, SameElsewhere, AllOnDevice, History, Step, Sets;
    ghost var was := dev.Contents();
    after := geo;
    assert Sets(tos[..0], geo.agcount) == [];
    NoHistory(Sbs(was, geo));
    SameEverywhere(was, geo);
    for i := 0 to |tos|
      invariant dev.Valid() && |was| == dev.size && after.Shape() == geo.Shape() && Suits(dev, after)
      invariant Standing(dev, dev.Contents(), after, c + i) && AllOnDevice(dev.Contents(), geo)
      invariant Sbs(dev.Contents(), geo) == History(Sbs(was, geo), Sets(tos[..i], geo.agcount))
      invariant SameElsewhere(was, dev.Contents(), geo)
    {
      ghost var before := dev.Contents();
      r, after := SetNext(dev, tos[i], limit, geo, after, c + i);
      SetsExtend(Sbs(was, geo), tos, i, geo.agcount);
      SameElsewhereTwice(was, before, dev.Contents(), geo);
    }
    assert tos[..|tos|] == tos;
    r := Ok(());
  }

  lemma NoHistory(sbs: seq<Superblock>)
    requires sbs != []
    ensures History(sbs, []) == sbs
  {
  }

  lemma SetsExtend(sbs: seq<Superblock>, tos: seq<Uuid>, i: nat, groups: nat)
    requires sbs != [] && i < |tos|
    ensures History(sbs, Sets(tos[..i + 1], groups)) ==
            Step(History(sbs, Sets(tos[..i], groups)), Set(tos[i], groups))
  {
    hide Step;
    var cmds := Sets(tos[..i + 1], groups);
    assert tos[..i + 1][..i] == tos[..i];
    assert cmds == Sets(tos[..i], groups) + [Set(tos[i], groups)];
    assert cmds[..|cmds| - 1] == Sets(tos[..i], groups);
  }

  lemma SameEverywhere(flat: seq<byte>, geo: Geo)
    ensures SameElsewhere(flat, flat, geo)
  {
  }

  lemma SameElsewhereTwice(a: seq<byte>, b: seq<byte>, c: seq<byte>, geo: Geo)
    requires SameElsewhere(a, b, geo) && SameElsewhere(b, c, geo)
    ensures SameElsewhere(a, c, geo)
  {
    hide Elsewhere;
  }

  lemma ElsewhereSameShape(a: seq<byte>, b: seq<byte>, geo: Geo, other: Geo)
    requires SameElsewhere(a, b, geo) && geo.Sane() && other.Shape() == geo.Shape()
    ensures SameElsewhere(a, b, other)
  {
    hide Geo.Sane, Geo.Shape, LogByte, LogBbs, SbByte;
    forall j | 0 <= j < |a| && Elsewhere(other, j)
      ensures Elsewhere(geo, j)
    {
      SaneSizes(geo);
      SameShape([], geo, other, 0);
      forall i: nat | i < geo.agcount
        ensures !InBlock(geo, i, j)
      {
        SameShape([], geo, other, i);
        assert !InBlock(other, i, j);
      }
      LogSameShape(geo, other);
    }
  }

  /** Whether the next superblock can be read does not depend on those rewritten. */
  lemma SameErrors(dev: MemDevice, was: seq<byte>, now: seq<byte>, geo: Geo, meta: Uuid, to: Uuid, n: nat)
    requires geo.Sane() && |was| == dev.size && Rewrote(was, now, geo, meta, to, n)
    ensures |now| == dev.size && SbError(dev, now, geo, n) == SbError(dev, was, geo, n)
  {
    SaneSizes(geo);
    hide SbByte;
    if OnDevice(was, geo, n) {
      NextIsUntouched(was, now, geo, meta, to, n, n);
    }
  }

  lemma WindowIsBlocks(blocksize: nat)
    requires blocksize in {512, 1024, 2048, 4096, 8192, 16384, 32768, 65536}
    ensures WINDOW % blocksize == 0 && WRITE_CHUNK % blocksize == 0
  {
  }

  lemma WindowAligned(start: nat, bbs: nat, blocksize: pos, sector: pos, w: nat)
    requires WINDOW % blocksize == 0 && blocksize % sector == 0
    requires start % blocksize == 0 && bbs * BBSIZE % blocksize == 0 && w * WINDOW < bbs * BBSIZE
    ensures (start + w * WINDOW) % sector == 0
    ensures Min(WINDOW, bbs * BBSIZE - w * WINDOW) % sector == 0
  {
    var at := w * WINDOW;
    MulMod(w, WINDOW);
    BlocksAreSectors(at, WINDOW, blocksize);
    ModAdd(start, at, blocksize);
    ModAdd(bbs * BBSIZE, at, blocksize);
    BlocksAreSectors(start + at, blocksize, sector);
    BlocksAreSectors(Min(WINDOW, bbs * BBSIZE - at), blocksize, sector);
  }

  /**
   A device that holds the log, and enforces no more than whole filesystem blocks at block
   boundaries, answers all that is asked of it; and such a log is never one basic block longer than
   whole records.
   */
  lemma WholeBlocksAreEnough(dev: MemDevice, geo: Geo)
    requires geo.Sane() && LogKnown(geo) && LogBbs(geo) >= TOTAL_REC_BBS
    requires TakesLog(dev, LogByte(geo), LogBbs(geo), geo.blocksize)
    ensures LogReady(dev, geo)
    ensures geo.blocksize > 512 ==> LogBbs(geo) % REC_BBS != 1
  {
    SaneSizes(geo);
    hide TakesLog, Ready, Geo.Sane, Geo.LogExtent;
    WindowIsBlocks(geo.blocksize);
    TakesLogIsReady(dev, LogByte(geo), LogBbs(geo), geo.blocksize, geo.logsunit);
    LogIsReadable(dev, LogByte(geo), LogBbs(geo), geo.blocksize);
    if geo.blocksize > 512 {
      WholeRecords(dev, LogByte(geo), LogBbs(geo), geo.blocksize);
    }
  }

  lemma WholeRecords(dev: MemDevice, start: nat, bbs: nat, blocksize: pos)
    requires blocksize in {1024, 2048, 4096, 8192, 16384, 32768, 65536} && TakesLog(dev, start, bbs, blocksize)
    ensures bbs % REC_BBS != 1
  {
    BlocksAreSectors(bbs * BBSIZE, blocksize, 1024);
  }

  lemma LogIsReadable(dev: MemDevice, start: nat, bbs: nat, blocksize: pos)
    requires TakesLog(dev, start, bbs, blocksize) && WINDOW % blocksize == 0
    ensures AcceptsWindows(dev, start, bbs)
  {
    forall w: nat | w * WINDOW < bbs * BBSIZE
      ensures AcceptsWindow(dev, start, bbs, w)
    {
      if dev.strict {
        WindowAligned(start, bbs, blocksize, dev.logical, w);
      }
    }
  }
}
