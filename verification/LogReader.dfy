/** The head and tail search over a device, a basic block at a time through cached windows. */
module LogReader {
  import opened Prelude
  import opened Device
  import opened LogFinder
  import opened LogRecord

  /** How much of the log is read per device operation. */
  const WINDOW: nat := 256 * 1024

  /** `log` is what the search sees of `bytes`. */
  ghost predicate Shows(bytes: seq<byte>, log: seq<Block>) {
    && |log| == |bytes| / BBSIZE
    && forall k {:trigger Decode(Bb(bytes, k))} :: 0 <= k < |log| ==> log[k] == Decode(Bb(bytes, k))
  }

  /** The log's blocks as the search sees them. */
  function Decoded(log: seq<byte>): (blocks: seq<Block>)
    ensures |blocks| == |log| / BBSIZE
    ensures Shows(log, blocks)
  {
    seq(|log| / BBSIZE, (k: nat) requires k < |log| / BBSIZE => Decode(Bb(log, k)))
  }

  /** The `bbs` basic blocks of the device from byte `start` on; zero past its end. */
  ghost function Extent(dev: MemDevice, start: nat, bbs: nat): (bytes: seq<byte>)
    requires dev.Valid()
    reads dev
    ensures |bytes| == bbs * BBSIZE && forall i :: 0 <= i < |bytes| ==> bytes[i] == dev.ByteAt(start + i)
  {
    seq<byte>(bbs * BBSIZE, (i: nat) requires dev.Valid() reads dev => dev.ByteAt(start + i))
  }

  /** The device answers a read of window `w` of the extent. */
  predicate AcceptsWindow(dev: MemDevice, start: nat, bbs: nat, w: nat)
    requires w * WINDOW < bbs * BBSIZE
  {
    dev.Accepts(start + w * WINDOW, Min(WINDOW, bbs * BBSIZE - w * WINDOW))
  }

  ghost predicate AcceptsWindows(dev: MemDevice, start: nat, bbs: nat) {
    forall w: nat {:trigger AcceptsWindow(dev, start, bbs, w)} ::
      w * WINDOW < bbs * BBSIZE ==> AcceptsWindow(dev, start, bbs, w)
  }

  lemma ExtentIsContents(dev: MemDevice, start: nat, bbs: nat, at: nat, len: nat)
    requires dev.Valid() && at + len <= bbs * BBSIZE && start + at + len <= dev.size
    ensures Extent(dev, start, bbs)[at..at + len] == dev.Contents()[start + at..start + at + len]
  {
  }

  /** `win` is the window of `bytes` that starts at `winAt`. */
  ghost predicate IsWindow(bytes: seq<byte>, winAt: nat, win: seq<byte>) {
    && winAt < |bytes| && winAt % WINDOW == 0
    && |win| == Min(WINDOW, |bytes| - winAt)
    && win == bytes[winAt..winAt + |win|]
  }

  lemma WindowRead(dev: MemDevice, start: nat, bbs: nat, w: nat, data: seq<byte>)
    requires dev.Valid() && w * WINDOW < bbs * BBSIZE
    requires |data| == Min(WINDOW, bbs * BBSIZE - w * WINDOW) && start + w * WINDOW + |data| <= dev.size
    requires data == dev.Contents()[start + w * WINDOW..start + w * WINDOW + |data|]
    ensures IsWindow(Extent(dev, start, bbs), w * WINDOW, data)
  {
    ExtentIsContents(dev, start, bbs, w * WINDOW, |data|);
    MulMod(w, WINDOW);
  }

  lemma WindowOf(n: nat, bbs: nat)
    requires n < bbs
    ensures var at := n * BBSIZE / WINDOW * WINDOW;
            at <= n * BBSIZE < at + Min(WINDOW, bbs * BBSIZE - at)
  {
  }

  lemma BlockFits(n: nat, bbs: nat, winAt: nat)
    requires n < bbs && winAt % WINDOW == 0
    requires winAt <= n * BBSIZE < winAt + Min(WINDOW, bbs * BBSIZE - winAt)
    ensures (n + 1) * BBSIZE <= winAt + Min(WINDOW, bbs * BBSIZE - winAt)
  {
    var w := winAt / WINDOW;
    assert winAt == BBSIZE * (512 * w);
    assert n < 512 * w + 512;
  }

  lemma BlockInWindow(bytes: seq<byte>, bbs: nat, winAt: nat, win: seq<byte>, n: nat)
    requires |bytes| == bbs * BBSIZE && n < bbs
    requires IsWindow(bytes, winAt, win) && winAt <= n * BBSIZE < winAt + |win|
    ensures (n + 1) * BBSIZE <= winAt + |win|
    ensures win[n * BBSIZE - winAt..(n + 1) * BBSIZE - winAt] == Bb(bytes, n)
  {
    BlockFits(n, bbs, winAt);
    var o := n * BBSIZE - winAt;
    assert forall j :: o <= j < o + BBSIZE ==> win[j] == bytes[winAt + j];
  }

  class LogReader {
    /** The log's bytes and blocks; the device does not change under the reader. */
    ghost const bytes: seq<byte>
    ghost const log: Log
    /** The device answers a read of every window. */
    ghost const readable: bool
    const dev: MemDevice
    const start: nat
    const bbs: nat
    var winAt: nat
    var win: array<byte>

    ghost predicate Valid()
      reads this, dev, win
    {
      && Attached()
      && bbs == |log| && |bytes| == bbs * BBSIZE && Shows(bytes, log)
      && (win.Length > 0 ==> IsWindow(bytes, winAt, win[..]))
    }

    /** What the reader was told of the device is so. */
    ghost predicate Attached()
      reads dev
    {
      && dev.Valid() && bytes == Extent(dev, start, bbs)
      && (readable ==> AcceptsWindows(dev, start, bbs))
    }

    /** `r` is the specified answer, unless the device refused to be read. */
    ghost predicate Answers<T>(r: Result<T>, spec: Result<T>)
      reads this, dev, win
    {
      if r.Err? && r.error.FromDevice() then !readable else Valid() && r == spec
    }

    constructor (dev: MemDevice, start: nat, bbs: nat)
      requires dev.Valid() && bbs >= TOTAL_REC_BBS
      ensures Valid() && this.dev == dev && this.start == start && this.bbs == bbs
      ensures bytes == Extent(dev, start, bbs) && log == Decoded(bytes) && readable == AcceptsWindows(dev, start, bbs)
    {
      this.dev, this.start, this.bbs := dev, start, bbs;
      winAt := 0;
      win := new byte[0];
      bytes := Extent(dev, start, bbs);
      log := Decoded(Extent(dev, start, bbs));
      readable := AcceptsWindows(dev, start, bbs);
    }

    /** Read window `w`. */
    method Load(w: nat) returns (r: Result<()>)
      requires Valid() && w * WINDOW < bbs * BBSIZE
      modifies this
      ensures Answers(r, Ok(()))
      ensures r.Ok? ==> winAt == w * WINDOW && win.Length == Min(WINDOW, bbs * BBSIZE - winAt)
    {
      hide Admit, Extent, IsWindow, Shows;
      var at, len := w * WINDOW, Min(WINDOW, bbs * BBSIZE - w * WINDOW);
      win := new byte[len];
      var read := dev.ReadAt(start + at, win);
      if read.Err? {
        assert !AcceptsWindow(dev, start, bbs, w);
        return read;
      }
      winAt := at;
      WindowRead(dev, start, bbs, w, win[..]);
      r := Ok(());
    }

    /** Make the window hold block `n`. */
    method Seek(n: nat) returns (r: Result<()>)
      requires Valid() && n < bbs
      modifies this
      ensures Answers(r, Ok(()))
      ensures r.Ok? ==> win.Length > 0 && winAt <= n * BBSIZE < winAt + win.Length
    {
      var byteAt := n * BBSIZE;
      if win.Length == 0 || byteAt < winAt || byteAt >= winAt + win.Length {
        WindowOf(n, bbs);
        r := Load(byteAt / WINDOW);
      } else {
        r := Ok(());
      }
    }

    /** Basic block `n` of the log. */
    method ReadBb(n: nat) returns (r: Result<seq<byte>>)
      requires Valid() && n < bbs
      modifies this
      ensures Answers(r, Ok(Bb(bytes, n)))
    {
      var _ :- Seek(n);
      BlockInWindow(bytes, bbs, winAt, win[..], n);
      var o := n * BBSIZE - winAt;
      r := Ok(win[o..o + BBSIZE]);
    }

    /** Block `n` as the search reads it. */
    method ReadBlock(n: nat) returns (r: Result<Block>)
      requires Valid() && n < bbs
      modifies this
      ensures Answers(r, Ok(log[n]))
    {
      var b :- ReadBb(n);
      r := Ok(Decode(b));
    }

    method Cycle(n: nat) returns (r: Result<nat>)
      requires Valid() && n < bbs
      modifies this
      ensures Answers(r, Ok(log[n].Cycle()))
    {
      var b :- ReadBlock(n);
      r := Ok(b.Cycle());
    }

    method IsHeader(n: nat) returns (r: Result<bool>)
      requires Valid() && n < bbs
      modifies this
      ensures Answers(r, Ok(log[n].IsHeader()))
    {
      var b :- ReadBlock(n);
      r := Ok(b.IsHeader());
    }

    method FindCycleStart(first0: nat, last: nat, cycle: nat) returns (r: Result<nat>)
      requires Valid() && first0 <= last < bbs
      modifies this
      ensures Answers(r, Ok(CycleStart(log, first0, last, cycle)))
    {
      var first: nat, end: nat := first0, last;
      var mid := (first + end) / 2;
      while mid != first && mid != end
        invariant Valid() && first <= end <= last && mid == (first + end) / 2
        invariant CycleStart(log, first, end, cycle) == CycleStart(log, first0, last, cycle)
        decreases end - first
      {
        var c :- Cycle(mid);
        if c == cycle {
          end := mid;
        } else {
          first := mid;
        }
        mid := (first + end) / 2;
      }
      r := Ok(end);
    }

    method FindVerifyCycle(start: nat, n: nat, stop: nat) returns (r: Result<Option<nat>>)
      requires Valid() && start + n <= bbs
      modifies this
      ensures Answers(r, Ok(VerifyCycle(log, start, n, stop)))
    {
      for i := start to start + n
        invariant Valid()
        invariant VerifyCycle(log, i, start + n - i, stop) == VerifyCycle(log, start, n, stop)
      {
        var c :- Cycle(i);
        if c == stop {
          return Ok(Some(i));
        }
      }
      r := Ok(None);
    }

    /** The scan back from `last` for a header that every search of this kind makes. */
    method ScanBack(start: nat, last: nat) returns (r: Result<Scan>)
      requires Valid() && last <= bbs
      modifies this
      ensures Answers(r, Ok(HeaderBelow(log, start, last)))
    {
      var i: nat := last;
      while i > 0
        invariant Valid() && i <= last
        invariant HeaderBelow(log, start, i) == HeaderBelow(log, start, last)
      {
        i := i - 1;
        if i < start {
          return Ok(PastStart);
        }
        var h :- IsHeader(i);
        if h {
          return Ok(At(i));
        }
      }
      r := Ok(Exhausted);
    }

    /** `Some` is the header found and `last` as it leaves it; `None` is no header down to block 0. */
    method FindVerifyLogRecord(start: nat, last: nat, extra: nat) returns (r: Result<Option<nat>>)
      requires Valid() && last <= bbs
      modifies this
      ensures Answers(r, VerifyRecord(log, start, last, extra))
    {
      var scan :- ScanBack(start, last);
      match scan
      case PastStart => return Err(Corrupt);
      case Exhausted => return Ok(None);
      case At(i) =>
        var h :- ReadBlock(i);
        var hLen, xhdrs := CeilDiv(h.len, BBSIZE), CeilDiv(h.size, HEADER_CYCLE_SIZE);
        r := Ok(Some(if last - i + extra != hLen + xhdrs then i else last));
    }

    method FindZeroedBlock() returns (r: Result<Option<nat>>)
      requires Valid()
      modifies this
      ensures Answers(r, FindZeroed(log))
    {
      hide CycleStart, ZeroedHead;
      var first :- Cycle(0);
      if first == 0 {
        return Ok(Some(0));
      }
      var lastCycle :- Cycle(bbs - 1);
      if lastCycle != 0 {
        return Ok(None);
      }
      if first != 1 {
        return Err(Corrupt);
      }
      var end :- FindCycleStart(0, bbs - 1, 0);
      r := BackUpZeroed(end);
    }

    /** The second part of `find_zeroed`: from where the zeroes start, back over a torn record. */
    method BackUpZeroed(end: nat) returns (r: Result<Option<nat>>)
      requires Valid() && end < bbs
      modifies this
      ensures Answers(r, ZeroedHead(log, end))
    {
      hide VerifyCycle, VerifyRecord;
      var last := end;
      var n := Min(TOTAL_REC_BBS, last);
      var start := last - n;
      var hole :- FindVerifyCycle(start, n, 0);
      if hole.Some? {
        last := hole.value;
      }
      var found :- FindVerifyLogRecord(start, last, 0);
      r := if found.None? then Err(Corrupt) else Ok(found);
    }

    /** The first part of `find_head`: the boundary between cycles, before it is aligned. */
    method FindBoundary() returns (r: Result<nat>)
      requires Valid()
      modifies this
      ensures Answers(r, Ok(CycleHead(log)))
    {
      hide CycleStart, HoleBelow;
      var firstHalf :- Cycle(0);
      var lastHalf :- Cycle(bbs - 1);
      var head, stop;
      if firstHalf == lastHalf {
        head, stop := bbs, Pred32(lastHalf);
      } else {
        stop := lastHalf;
        head :- FindCycleStart(0, bbs - 1, lastHalf);
      }
      head :- FirstHole(head, stop);
      r := Ok(head);
    }

    /** `head` moved back to the first hole of up to eight records behind it. */
    method FirstHole(head: nat, stop: nat) returns (r: Result<nat>)
      requires Valid() && head <= bbs
      modifies this
      ensures Answers(r, Ok(HoleBelow(log, head, stop)))
    {
      hide VerifyCycle;
      if head >= TOTAL_REC_BBS {
        var hole :- FindVerifyCycle(head - TOTAL_REC_BBS, TOTAL_REC_BBS, stop);
        return Ok(if hole.Some? then hole.value else head);
      }
      var start := bbs - (TOTAL_REC_BBS - head);
      var hole :- FindVerifyCycle(start, TOTAL_REC_BBS - head, Pred32(stop));
      if hole.Some? {
        return Ok(hole.value);
      }
      hole :- FindVerifyCycle(0, head, stop);
      r := Ok(if hole.Some? then hole.value else head);
    }

    /** The second part of `find_head`: `head` moved out of the middle of a record. */
    method ValidateHead(head: nat) returns (r: Result<nat>)
      requires Valid() && head <= bbs
      modifies this
      ensures Answers(r, AlignHead(log, head))
    {
      hide VerifyRecord;
      if head >= REC_BBS {
        var found :- FindVerifyLogRecord(head - REC_BBS, head, 0);
        return if found.None? then Err(Corrupt) else Ok(found.value);
      }
      var found :- FindVerifyLogRecord(0, head, 0);
      if found.Some? {
        return Ok(found.value);
      }
      var start := bbs - (REC_BBS - head);
      var wrapped :- FindVerifyLogRecord(start, bbs, head);
      if wrapped.None? {
        return Err(Corrupt);
      }
      r := Ok(if wrapped.value != bbs then wrapped.value else head);
    }

    method FindHeadBlock() returns (r: Result<nat>)
      requires Valid()
      modifies this
      ensures Answers(r, FindHead(log))
    {
      hide FindZeroed, CycleHead, AlignHead;
      var zeroed :- FindZeroedBlock();
      if zeroed.Some? {
        return Ok(zeroed.value);
      }
      var head :- FindBoundary();
      head :- ValidateHead(head);
      r := Ok(if head == bbs then 0 else head);
    }

    method FindTailState() returns (r: Result<LogState>)
      requires Valid()
      modifies this
      ensures Answers(r, FindTail(log))
    {
      hide FindHead, HeaderBelow, StateAt;
      var head :- FindHeadBlock();
      if head == 0 {
        var c :- Cycle(0);
        if c == 0 {
          return Ok(LogState(0, 0, 0));
        }
      }
      var scan :- ScanBack(0, head);
      var wrapped := !scan.At?;
      if wrapped {
        scan :- ScanBack(head, bbs);
      }
      if !scan.At? {
        return Err(Corrupt);
      }
      var st :- StateFrom(head, scan.block, wrapped);
      r := Ok(st);
    }

    /** The second part of `find_tail`: what the record at `i`, the last before the head, says. */
    method StateFrom(head: nat, i: nat, wrapped: bool) returns (r: Result<LogState>)
      requires Valid() && i < bbs
      modifies this
      ensures Answers(r, Ok(StateAt(log, head, i, wrapped)))
    {
      var h :- ReadBlock(i);
      var hblks := h.HeaderBlocks();
      var after := (i + hblks + CeilDiv(h.len, BBSIZE)) % bbs;
      var tail := h.tailBlock;
      if head == after && h.numLogops == 1 {
        var op :- ReadBlock((i + hblks) % bbs);
        if op.IsUnmount() {
          tail := after;
        }
      }
      r := Ok(LogState(head, tail, if wrapped then Succ32(h.cycle) else h.cycle));
    }
  }
}
