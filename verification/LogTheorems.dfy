/** What the head and tail search promises about whole logs. */
module LogTheorems {
  import opened Prelude
  import opened LogFinder

  /**
   The binary search on arbitrary contents: it ends on a block of the target cycle whose
   predecessor is not of that cycle.
   */
  lemma {:induction false} CycleStartIsBoundary(log: seq<Block>, first: nat, end: nat, target: nat)
    requires first < end < |log|
    requires log[end].Cycle() == target
    requires log[first].Cycle() != target
    ensures var r := CycleStart(log, first, end, target);
            log[r].Cycle() == target && log[r - 1].Cycle() != target
    decreases end - first
  {
    var mid := (first + end) / 2;
    if mid == first || mid == end {
      assert end == first + 1;
    } else if log[mid].Cycle() == target {
      CycleStartIsBoundary(log, first, mid, target);
    } else {
      CycleStartIsBoundary(log, mid, end, target);
    }
  }

  // ---------------------------------------------------------------------------------------
  // Torn logs.

  /**
   A log whose lap in cycle `k` has been written up to block `f`, the first stale block in log
   order. Of the `m` blocks from `f` on, any subset may have reached the disk; they may run past
   the physical end into the next lap. Everything further on is a lap old.
   */
  ghost predicate InFlight(log: Log, k: nat, f: nat, m: nat) {
    var n := |log|;
    && 1 <= k < TWO_32
    && 1 <= f <= n
    && m <= TOTAL_REC_BBS
    && (if f < n then log[f].Cycle() == k - 1 else log[0].Cycle() == k)
    && (forall x :: 0 <= x < f ==>
          log[x].Cycle() == k || (x + n < f + m && log[x].Cycle() == k + 1))
    && (forall x :: f <= x < n ==>
          log[x].Cycle() == k - 1 || (x < f + m && log[x].Cycle() == k))
  }

  /**
   The bisection is led astray among blocks in flight: the window runs past the physical end, with
   the last block written in this lap or the next, and either nothing of this lap is left to be
   found stale, or the boundary it ends on lies past the first stale block.
   */
  predicate Misled(log: Log, k: nat, f: nat) {
    var n := |log|; var last := log[n - 1].Cycle();
    log[0].Cycle() != last && last >= k && (f >= n || CycleStart(log, 0, n - 1, last) > f)
  }

  /** A log on which it is not. See TornCycleHead, and MisledByShortLog for one on which it is. */
  ghost predicate Torn(log: Log, k: nat, f: nat, m: nat) {
    InFlight(log, k, f, m) && !Misled(log, k, f)
  }

  /** A window that runs past the physical end leaves the middle block out; from there, the last one. */
  predicate SettledMiddle(n: nat, f: nat, m: nat) {
    if f < n then n < f + m ==> f + m - n <= (n - 1) / 2 < f else m < n
  }

  /** The middle block settled, it never is. */
  lemma SettledIsNotMisled(log: Log, k: nat, f: nat, m: nat)
    requires InFlight(log, k, f, m) && SettledMiddle(|log|, f, m)
    ensures Torn(log, k, f, m)
  {
    var n := |log|;
    var last := log[n - 1].Cycle();
    if log[0].Cycle() != last && last >= k {
      assert f < n && log[0].Cycle() == k + 1 && n < f + m && last == k;
      var mid := (n - 1) / 2;
      assert log[mid].Cycle() == k;
      assert CycleStart(log, 0, n - 1, last) == CycleStart(log, 0, mid, k);
    }
  }

  /** In a log of 8192 blocks or more, and with no more than half a log in flight, it never is. */
  lemma LongLogsAreTorn(log: Log, k: nat, f: nat, m: nat)
    requires InFlight(log, k, f, m) && 2 * m <= |log|
    ensures Torn(log, k, f, m)
  {
    SettledIsNotMisled(log, k, f, m);
  }

  lemma TornBisectionStaysInWindow(log: Log, k: nat, f: nat, m: nat)
    requires Torn(log, k, f, m)
    requires log[0].Cycle() != log[|log| - 1].Cycle()
    ensures var n := |log|; var e := CycleStart(log, 0, n - 1, log[n - 1].Cycle());
            if log[n - 1].Cycle() == k - 1 then f <= e <= f + m
            else log[n - 1].Cycle() == k && log[0].Cycle() == k + 1 && 1 <= e <= f + m - n
  {
    var n := |log|;
    CycleStartIsBoundary(log, 0, n - 1, log[n - 1].Cycle());
    hide CycleStart;
  }

  /** The scan for a cycle finds its first block there, or none. */
  lemma ScanFinds(log: seq<Block>, start: nat, n: nat, stop: nat, f: nat)
    requires start <= f <= start + n <= |log|
    requires f < start + n ==> log[f].Cycle() == stop
    requires forall x :: start <= x < f ==> log[x].Cycle() != stop
    ensures VerifyCycle(log, start, n, stop) == if f < start + n then Some(f) else None
  {
    var v := VerifyCycle(log, start, n, stop);
    hide VerifyCycle;
    if v.Some? && v.value < f {
      assert false;
    }
  }

  /** The scan behind a boundary in the window finds the first stale block, and nothing in the lap before. */
  lemma TornSameLapScans(log: Log, k: nat, f: nat, m: nat, e: nat)
    requires Torn(log, k, f, m) && f < |log| && f <= e <= f + m && e < |log|
    ensures var from := if e < TOTAL_REC_BBS then 0 else e - TOTAL_REC_BBS;
            VerifyCycle(log, from, e - from, k - 1) == if f < e then Some(f) else None
    ensures e < TOTAL_REC_BBS ==>
              VerifyCycle(log, |log| - (TOTAL_REC_BBS - e), TOTAL_REC_BBS - e, Pred32(k - 1)).None?
  {
    var n := |log|;
    var from := if e < TOTAL_REC_BBS then 0 else e - TOTAL_REC_BBS;
    ScanFinds(log, from, e - from, k - 1, if f < e then f else e);
    if e < TOTAL_REC_BBS {
      assert forall x :: 0 <= x < n ==> log[x].Cycle() in {k - 1, k, k + 1};
      ScanFinds(log, n - (TOTAL_REC_BBS - e), TOTAL_REC_BBS - e, Pred32(k - 1), n);
    }
  }

  /** The bisection found the boundary of lap `k`, or a hole in it. */
  lemma TornSameLap(log: Log, k: nat, f: nat, m: nat, e: nat)
    requires Torn(log, k, f, m) && f < |log|
    requires f <= e <= f + m && e < |log|
    requires log[0].Cycle() != k - 1 == log[|log| - 1].Cycle()
    requires e == CycleStart(log, 0, |log| - 1, k - 1)
    ensures CycleHead(log) == f
  {
    TornSameLapScans(log, k, f, m, e);
    hide VerifyCycle, CycleStart, Torn;
  }

  /** The bisection found a boundary in the next lap; the stale blocks are at the end of this one. */
  lemma TornNextLap(log: Log, k: nat, f: nat, m: nat, e: nat)
    requires Torn(log, k, f, m) && f < |log|
    requires 1 <= e <= f + m - |log|
    requires log[0].Cycle() != k == log[|log| - 1].Cycle()
    requires e == CycleStart(log, 0, |log| - 1, k)
    ensures CycleHead(log) == f
  {
    var n := |log|;
    var start := n - (TOTAL_REC_BBS - e);
    assert start <= f;
    var v := VerifyCycle(log, start, TOTAL_REC_BBS - e, Pred32(k));
    assert v.Some? && v.value == f;
  }

  /** Both ends are in the same cycle: the boundary is the end of the log or just before it. */
  lemma TornSameEnds(log: Log, k: nat, f: nat, m: nat)
    requires Torn(log, k, f, m)
    requires log[0].Cycle() == log[|log| - 1].Cycle()
    ensures CycleHead(log) == f
  {
    var n := |log|;
    assert log[n - 1].Cycle() == k;
    var v := VerifyCycle(log, n - TOTAL_REC_BBS, TOTAL_REC_BBS, Pred32(k));
    assert v == if f < n then Some(f) else None;
  }

  /** Not led astray, the search finds the first block that did not reach the disk. */
  lemma TornIsFound(log: Log, k: nat, f: nat, m: nat)
    requires Torn(log, k, f, m)
    ensures CycleHead(log) == f
  {
    var n := |log|;
    var lastHalf := log[n - 1].Cycle();
    if log[0].Cycle() == lastHalf {
      TornSameEnds(log, k, f, m);
    } else {
      TornBisectionStaysInWindow(log, k, f, m);
      CycleStartIsBoundary(log, 0, n - 1, lastHalf);
      var e := CycleStart(log, 0, n - 1, lastHalf);
      if lastHalf == k - 1 {
        TornSameLap(log, k, f, m, e);
      } else {
        TornNextLap(log, k, f, m, e);
      }
    }
  }

  /** Led astray, it ends on a block of another cycle, or before the end it should have found. */
  lemma MisledIsLost(log: Log, k: nat, f: nat, m: nat)
    requires InFlight(log, k, f, m) && Misled(log, k, f)
    ensures CycleHead(log) != f
  {
    hide CycleStart, VerifyCycle;
  }

  /**
   Whatever subset of the in-flight window reached the disk, wrapped or not, the search over cycles
   finds exactly the first block that did not, except when the bisection is led astray.
   */
  lemma TornCycleHead(log: Log, k: nat, f: nat, m: nat)
    requires InFlight(log, k, f, m)
    ensures CycleHead(log) == f <==> !Misled(log, k, f)
    ensures 2 * m <= |log| ==> !Misled(log, k, f)
  {
    if Misled(log, k, f) {
      MisledIsLost(log, k, f, m);
    } else {
      TornIsFound(log, k, f, m);
    }
    hide InFlight, Misled, CycleHead;
    if 2 * m <= |log| {
      LongLogsAreTorn(log, k, f, m);
    }
  }

  // ---------------------------------------------------------------------------------------
  // Records.

  /** Blocks from the header at `s` up to block `f`, going round the physical end if need be. */
  function Span(n: nat, s: nat, f: nat): nat
    requires s < n && f <= n
  {
    if s < f then f - s else n - s + f
  }

  /**
   The header at `s` is the last one before block `f` in log order, and its record, of at most
   512 blocks, covers the block before `f`.
   */
  ghost predicate LastRecord(log: Log, s: nat, f: nat) {
    var n := |log|;
    && s < n && 1 <= f <= n
    && log[s].IsHeader()
    && Span(n, s, f) <= log[s].RecordLen() <= REC_BBS
    && (forall x :: (if s < f then s < x < f else 0 <= x < f || s < x < n) ==> !log[x].IsHeader())
  }

  /** Where the head belongs: at `f` when the record ends there, otherwise back at its header. */
  function RecordHead(log: Log, s: nat, f: nat): nat
    requires s < |log| && 1 <= f <= |log|
  {
    if Span(|log|, s, f) != log[s].RecordLen() then s
    else if f == |log| then 0 else f
  }

  lemma HeaderBelowFinds(log: seq<Block>, start: nat, last: nat, i: nat)
    requires start <= i < last <= |log|
    requires log[i].IsHeader() && forall x :: i < x < last ==> !log[x].IsHeader()
    ensures HeaderBelow(log, start, last) == At(i)
  {
  }

  lemma LastRecordAligns(log: Log, s: nat, f: nat)
    requires LastRecord(log, s, f)
    ensures AlignHead(log, f) == Ok(if Span(|log|, s, f) != log[s].RecordLen() then s else f)
  {
    var n := |log|;
    if s < f {
      HeaderBelowFinds(log, if f >= REC_BBS then f - REC_BBS else 0, f, s);
    } else {
      assert HeaderBelow(log, 0, f) == Exhausted;
      HeaderBelowFinds(log, n - (REC_BBS - f), n, s);
    }
  }

  /** Past the zeroed path, the search over cycles and records finds the record's place. */
  lemma WrittenHead(log: Log, k: nat, f: nat, m: nat, s: nat)
    requires Torn(log, k, f, m) && log[|log| - 1].Cycle() != 0
    requires LastRecord(log, s, f)
    ensures FindHead(log) == Ok(RecordHead(log, s, f))
  {
    assert FindZeroed(log) == Ok(None);
    TornIsFound(log, k, f, m);
    LastRecordAligns(log, s, f);
    hide CycleHead, AlignHead, FindZeroed, LastRecord;
  }

  /** In the first lap, where stale blocks are zero, the bisection ends in the window. */
  lemma ZeroLapBoundary(log: Log, f: nat, m: nat)
    requires InFlight(log, 1, f, m) && log[|log| - 1].Cycle() == 0
    ensures f < |log| && f <= CycleStart(log, 0, |log| - 1, 0) <= f + m
  {
    CycleStartIsBoundary(log, 0, |log| - 1, 0);
  }

  /** ... and the scan for holes behind it finds the first one. */
  lemma ZeroLapFirstHole(log: Log, f: nat, m: nat, e: nat)
    requires InFlight(log, 1, f, m) && log[|log| - 1].Cycle() == 0
    requires f <= e <= f + m && e < |log|
    ensures var span := Min(TOTAL_REC_BBS, e);
            VerifyCycle(log, e - span, span, 0) == if f < e then Some(f) else None
  {
    var span := Min(TOTAL_REC_BBS, e);
    var v := VerifyCycle(log, e - span, span, 0);
    assert forall x :: e - span <= x < f ==> log[x].Cycle() != 0;
    assert e - span <= f;
  }

  lemma ZeroedHeadAligns(log: Log, f: nat, m: nat, s: nat, e: nat)
    requires InFlight(log, 1, f, m) && log[|log| - 1].Cycle() == 0
    requires LastRecord(log, s, f) && f <= e <= f + m && e < |log|
    ensures ZeroedHead(log, e) ==
            if s < f && e <= s + TOTAL_REC_BBS then Ok(Some(RecordHead(log, s, f))) else Err(Corrupt)
  {
    ZeroLapFirstHole(log, f, m, e);
    var start := e - Min(TOTAL_REC_BBS, e);
    if s < f && e <= s + TOTAL_REC_BBS {
      HeaderBelowFinds(log, start, f, s);
    } else {
      assert !HeaderBelow(log, start, f).At?;
    }
  }

  /**
   When the search refuses a torn log: its last block was never written, and a write past the
   physical end reached block 0 before it; or the bisection ended more than 4096 blocks past the
   last header, where the scan for that header does not reach.
   */
  predicate FirstLapRefused(log: Log, s: nat, f: nat) {
    && log[|log| - 1].Cycle() == 0
    && !(log[0].Cycle() == 1 && s < f && CycleStart(log, 0, |log| - 1, 0) <= s + TOTAL_REC_BBS)
  }

  /**
   The first lap, where stale blocks are zero. A window that ends by the physical end and has
   room for one more record is never refused; a full one, or one that runs on, may be: see
   ZeroLapWindowIsTight and WrappedZeroLapIsRefused.
   */
  lemma ZeroLapHead(log: Log, f: nat, m: nat, s: nat)
    requires InFlight(log, 1, f, m) && log[|log| - 1].Cycle() == 0
    requires LastRecord(log, s, f)
    ensures FindHead(log) == if FirstLapRefused(log, s, f) then Err(Corrupt) else Ok(RecordHead(log, s, f))
    ensures f + m <= |log| && s < f && m <= TOTAL_REC_BBS - REC_BBS ==> !FirstLapRefused(log, s, f)
  {
    ZeroLapBoundary(log, f, m);
    ZeroedHeadAligns(log, f, m, s, CycleStart(log, 0, |log| - 1, 0));
  }

  /**
   Crash tolerance of the head search, in every lap. Whichever of the blocks in flight reached the
   disk, the head is the end of the last record that did completely: `f` if the record before it
   is whole, and that record's own header if it was torn; but for what a first lap is refused for.
   */
  lemma TornHead(log: Log, k: nat, f: nat, m: nat, s: nat)
    requires Torn(log, k, f, m) && LastRecord(log, s, f)
    ensures FindHead(log) == if FirstLapRefused(log, s, f) then Err(Corrupt) else Ok(RecordHead(log, s, f))
    ensures k > 1 || f == |log| ==> !FirstLapRefused(log, s, f)
  {
    if log[|log| - 1].Cycle() == 0 {
      assert k == 1;
      ZeroLapHead(log, f, m, s);
    } else {
      WrittenHead(log, k, f, m, s);
    }
  }

  function PlainBlock(cycle: nat): Block {
    Block(cycle, 0, 0, 0, 0, 0, 0, 0)
  }

  /** A 512-block record at 512, one stale block after it, then 4095 blocks of the same cycle. */
  const TIGHT_SIZE: nat := 16384

  function TightBlock(x: nat): Block {
    if x == 512 then Block(HEADER_MAGIC, 1, 2, 511 * BBSIZE, 512, 1, HEADER_CYCLE_SIZE, 0)
    else if x == 1024 || x >= 5120 then PlainBlock(0)
    else PlainBlock(1)
  }

  function TightLog(): (log: Log)
    ensures |log| == TIGHT_SIZE && forall x :: 0 <= x < |log| ==> log[x] == TightBlock(x)
  {
    var log := seq(TIGHT_SIZE, (x: nat) => TightBlock(x));
    assert |log| == TIGHT_SIZE;
    log
  }

  /** With 4096 blocks in flight in its first lap, a log of whole records can be refused. */
  lemma ZeroLapWindowIsTight()
    ensures var log := TightLog();
            && InFlight(log, 1, 1024, TOTAL_REC_BBS) && LastRecord(log, 512, 1024)
            && FindHead(log) == Err(Corrupt)
  {
    var log := TightLog();
    assert log[512].RecordLen() == 512;
    TightBoundary(log);
    hide CycleStart;
    ZeroLapHead(log, 1024, TOTAL_REC_BBS, 512);
  }

  lemma Halved(log: seq<Block>, first: nat, end: nat, target: nat)
    requires first + 1 < end < |log|
    ensures var mid := (first + end) / 2;
            CycleStart(log, first, end, target) ==
            if log[mid].Cycle() == target then CycleStart(log, first, mid, target)
            else CycleStart(log, mid, end, target)
  {
  }

  lemma TightBoundary(log: Log)
    requires log == TightLog()
    ensures CycleStart(log, 0, |log| - 1, 0) == 5120
  {
    hide CycleStart;
    Halved(log, 0, 16383, 0);
    Halved(log, 0, 8191, 0);
    assert log[8191] == TightBlock(8191) && log[4095] == TightBlock(4095);
    CycleStartIsBoundary(log, 4095, 8191, 0);
    var e := CycleStart(log, 4095, 8191, 0);
    assert log[e] == TightBlock(e) && log[e - 1] == TightBlock(e - 1);
  }

  function WrappedBlock(x: nat): Block {
    if x == 7900 then Block(HEADER_MAGIC, 1, 2, 99 * BBSIZE, 7900, 1, HEADER_CYCLE_SIZE, 0)
    else if x == 0 then PlainBlock(2)
    else if x < 8000 then PlainBlock(1)
    else PlainBlock(0)
  }

  function WrappedLog(): (log: Log)
    ensures |log| == 8192 && forall x :: 0 <= x < |log| ==> log[x] == WrappedBlock(x)
  {
    var log := seq(8192, (x: nat) => WrappedBlock(x));
    assert |log| == 8192;
    log
  }

  /**
   A window of 1000 blocks that runs past the physical end of a first lap, of which only block 0
   of the next lap reached the disk: the whole record before it is there, and the log is refused.
   */
  lemma WrappedZeroLapIsRefused()
    ensures var log := WrappedLog();
            && InFlight(log, 1, 8000, 1000) && LastRecord(log, 7900, 8000)
            && Span(|log|, 7900, 8000) == log[7900].RecordLen()
            && FindHead(log) == Err(Corrupt)
  {
    var log := WrappedLog();
    assert log[7900].RecordLen() == 100;
    assert log[0].Cycle() == 2 && log[8191].Cycle() == 0;
  }

  function UnsettledBlock(x: nat): Block {
    if x < 904 then PlainBlock(3)
    else if x < 1000 then PlainBlock(2)
    else if x < 2048 then PlainBlock(1)
    else PlainBlock(2)
  }

  const SHORTEST: nat := 4096

  function UnsettledLog(): (log: Log)
    ensures |log| == SHORTEST && forall x :: 0 <= x < |log| ==> log[x] == UnsettledBlock(x)
  {
    var log := seq(SHORTEST, (x: nat) => UnsettledBlock(x));
    assert |log| == SHORTEST;
    log
  }

  /**
   A log of 4096 blocks with 4000 in flight: the bisection ends among those, and the head comes
   out below the first stale block.
   */
  lemma MisledByShortLog()
    ensures var log := UnsettledLog();
            InFlight(log, 2, 1000, 4000) && Misled(log, 2, 1000) && CycleHead(log) == 904
  {
    var log := UnsettledLog();
    UnsettledInFlight(log);
    UnsettledHead(log);
    hide InFlight, Misled, CycleHead, UnsettledLog;
    TornCycleHead(log, 2, 1000, 4000);
  }

  lemma UnsettledHead(log: Log)
    requires log == UnsettledLog()
    ensures CycleHead(log) == 904
  {
    hide VerifyCycle, CycleStart;
    assert log[0] == UnsettledBlock(0) && log[4095] == UnsettledBlock(4095);
    UnsettledHoles(log);
    UnsettledStart(log);
    LowHeadBy(log, 2048, 904);
  }

  lemma UnsettledStart(log: Log)
    requires log == UnsettledLog()
    ensures CycleStart(log, 0, 4095, 2) == 2048
  {
    hide CycleStart;
    assert log[2047] == UnsettledBlock(2047);
    Halved(log, 0, 4095, 2);
    UnsettledBoundary(log, 4095);
  }

  /** The search over cycles, given what each part of it finds, where the boundary is below 4096. */
  lemma LowHeadBy(log: Log, e: nat, hole: nat)
    requires var last := log[|log| - 1].Cycle();
             && log[0].Cycle() != last && e == CycleStart(log, 0, |log| - 1, last) && e < TOTAL_REC_BBS
             && VerifyCycle(log, |log| - (TOTAL_REC_BBS - e), TOTAL_REC_BBS - e, Pred32(last)).None?
             && VerifyCycle(log, 0, e, last) == Some(hole)
    ensures CycleHead(log) == hole
  {
    hide CycleStart, VerifyCycle;
  }

  lemma UnsettledInFlight(log: Log)
    requires log == UnsettledLog()
    ensures InFlight(log, 2, 1000, 4000)
  {
    assert log[1000].Cycle() == 1;
  }

  lemma UnsettledHoles(log: Log)
    requires log == UnsettledLog()
    ensures VerifyCycle(log, 2048, 2048, 1).None? && VerifyCycle(log, 0, 2048, 2) == Some(904)
  {
    assert log[904].Cycle() == 2;
  }

  lemma {:induction false} UnsettledBoundary(log: Log, end: nat)
    requires log == UnsettledLog() && 2048 <= end < |log|
    ensures CycleStart(log, 2047, end, 2) == 2048
  {
    var mid := (2047 + end) / 2;
    if mid != 2047 && mid != end {
      assert log[mid].Cycle() == 2;
      UnsettledBoundary(log, mid);
    }
  }

  // ---------------------------------------------------------------------------------------
  // Tail.

  /** A header whose two block counts, the head search's and the tail search's, agree. */
  predicate Version2(b: Block) {
    b.version / 2 % 2 == 1 && b.size > 0
  }

  /** The record at `i` shuts the log down: its one operation has the bit 0x20. */
  predicate LoneUnmount(log: Log, i: nat)
    requires i < |log|
  {
    log[i].numLogops == 1 && log[(i + log[i].HeaderBlocks()) % |log|].opFlags / 0x20 % 2 == 1
  }

  lemma SyncRecordFinds(log: Log, head: nat, i: nat)
    requires head < |log| && LastRecord(log, i, if head == 0 then |log| else head)
    ensures SyncRecord(log, head) == Some((i, head <= i))
  {
    if i < head {
      HeaderBelowFinds(log, 0, head, i);
    } else {
      HeaderBelowFinds(log, head, |log|, i);
    }
  }

  /** Going `Span` blocks round the log from `i` leads to `head`. */
  lemma SpanWraps(n: nat, i: nat, head: nat)
    requires head < n && i < n
    ensures (i + Span(n, i, if head == 0 then n else head)) % n == head
  {
    var f := if head == 0 then n else head;
    var q := if i < head then 0 else 1;
    assert i + Span(n, i, f) == q * n + head;
    DivModUnique(i + Span(n, i, f), n, q, head);
  }

  lemma StateAtRecord(log: Log, head: nat, i: nat)
    requires head < |log| && i < |log| && Version2(log[i])
    requires Span(|log|, i, if head == 0 then |log| else head) == log[i].RecordLen()
    ensures StateAt(log, head, i, head <= i) == LogState(
              head,
              if LoneUnmount(log, i) then head else log[i].tailBlock,
              if i < head then log[i].cycle else Succ32(log[i].cycle))
  {
    var h := log[i];
    SpanWraps(|log|, i, head);
    assert i + h.HeaderBlocks() + CeilDiv(h.len, BBSIZE) == i + h.RecordLen();
  }

  /**
   The tail search picks the record that ends at the head. The log is clean at once when that
   is a lone unmount record, and otherwise the tail is the block the record names. The cycle is
   the one the head itself is in, also when the record ends at the physical end or wraps it.
   */
  lemma TailAtRecord(log: Log, head: nat, i: nat)
    requires FindHead(log) == Ok(head)
    requires head == 0 ==> log[0].Cycle() != 0
    requires var f := if head == 0 then |log| else head;
             LastRecord(log, i, f) && Span(|log|, i, f) == log[i].RecordLen()
    requires Version2(log[i])
    ensures FindTail(log) == Ok(LogState(
              head,
              if LoneUnmount(log, i) then head else log[i].tailBlock,
              if i < head then log[i].cycle else Succ32(log[i].cycle)))
  {
    hide FindHead, StateAt, LoneUnmount;
    SyncRecordFinds(log, head, i);
    StateAtRecord(log, head, i);
  }

  /** A log whose record before the head is a lone unmount record is clean at the head. */
  lemma CleanAtRecord(log: Log, head: nat, i: nat)
    requires FindHead(log) == Ok(head)
    requires head == 0 ==> log[0].Cycle() != 0
    requires var f := if head == 0 then |log| else head;
             LastRecord(log, i, f) && Span(|log|, i, f) == log[i].RecordLen()
    requires Version2(log[i]) && LoneUnmount(log, i)
    ensures FindTail(log) ==
            Ok(LogState(head, head, if i < head then log[i].cycle else Succ32(log[i].cycle)))
  {
    hide FindHead, FindTail, LastRecord;
    TailAtRecord(log, head, i);
  }

  /** With nothing in flight, a first lap is refused only for a record out of the lap before it. */
  lemma SettledFirstLap(log: Log, k: nat, f: nat, s: nat)
    requires InFlight(log, k, f, 0) && LastRecord(log, s, f)
    ensures FirstLapRefused(log, s, f) <==> k == 1 && s >= f
  {
    if k == 1 && f < |log| {
      assert log[|log| - 1].Cycle() == 0 && log[0].Cycle() == 1;
      ZeroLapBoundary(log, f, 0);
    } else {
      assert log[|log| - 1].Cycle() != 0;
    }
  }

  /**
   What the search makes of a torn log whose last record before `f` is whole: the head is `f`, the
   log is clean if that record is a lone unmount and otherwise reaches back to the block it names,
   and the cycle is that of the head.
   */
  lemma TornState(log: Log, k: nat, f: nat, m: nat, s: nat)
    requires Torn(log, k, f, m) && LastRecord(log, s, f)
    requires Span(|log|, s, f) == log[s].RecordLen() && Version2(log[s])
    ensures FindTail(log) ==
            if FirstLapRefused(log, s, f) then Err(Corrupt)
            else
              var head := if f == |log| then 0 else f;
              Ok(LogState(
                   head,
                   if LoneUnmount(log, s) then head else log[s].tailBlock,
                   if s < head then log[s].cycle else Succ32(log[s].cycle)))
  {
    hide FindHead, FindTail, LoneUnmount, Version2, FirstLapRefused, Misled;
    TornHead(log, k, f, m, s);
    if FirstLapRefused(log, s, f) {
      RefusedTail(log);
    } else {
      var head := if f == |log| then 0 else f;
      assert FindHead(log) == Ok(head) && log[0].Cycle() != 0;
      TailAtRecord(log, head, s);
    }
  }

  /**
   A log shut down cleanly: written up to `f`, nothing in flight, the record before `f` a whole
   lone unmount record, which may end at or wrap round the physical end. Head and tail are both
   `f`, and the cycle is the lap's, or the next one's when the head comes round to block 0. Only in
   the first lap, which has none before it, is a record that wraps refused.
   */
  lemma CleanShutdown(log: Log, k: nat, f: nat, s: nat)
    requires InFlight(log, k, f, 0)
    requires LastRecord(log, s, f) && Span(|log|, s, f) == log[s].RecordLen()
    requires Version2(log[s]) && LoneUnmount(log, s)
    requires log[s].cycle == if s < f then k else k - 1
    ensures FindTail(log) ==
            if k == 1 && s >= f then Err(Corrupt)
            else Ok(if f == |log| then LogState(0, 0, Succ32(k)) else LogState(f, f, k))
  {
    hide FindTail, LoneUnmount, Version2, FirstLapRefused, Misled, CycleStart;
    SettledIsNotMisled(log, k, f, 0);
    TornState(log, k, f, 0, s);
    SettledFirstLap(log, k, f, s);
  }

  lemma RefusedTail(log: Log)
    requires FindHead(log) == Err(Corrupt)
    ensures FindTail(log) == Err(Corrupt)
  {
    hide FindHead;
  }

  /**
   A log cut off in the middle of the record at `s`: the search falls back to the record at `p`
   before it, whose tail it reports, or calls the log clean if that was an unmount.
   */
  lemma TornTail(log: Log, k: nat, f: nat, m: nat, s: nat, p: nat)
    requires Torn(log, k, f, m)
    requires LastRecord(log, s, f) && Span(|log|, s, f) < log[s].RecordLen()
    requires var e := if s == 0 then |log| else s;
             LastRecord(log, p, e) && Span(|log|, p, e) == log[p].RecordLen()
    requires Version2(log[p])
    ensures FindTail(log) ==
            if FirstLapRefused(log, s, f) then Err(Corrupt)
            else Ok(LogState(
                      s,
                      if LoneUnmount(log, p) then s else log[p].tailBlock,
                      if p < s then log[p].cycle else Succ32(log[p].cycle)))
  {
    hide FindHead, FindTail, LoneUnmount, Version2, FirstLapRefused, Misled;
    TornHead(log, k, f, m, s);
    if FirstLapRefused(log, s, f) {
      RefusedTail(log);
    } else {
      assert log[0].Cycle() != 0;
      TailAtRecord(log, s, p);
    }
  }

  // ---------------------------------------------------------------------------------------
  // Logs the formatter and the log clearer leave.

  /** A whole record of `len` blocks at `i` in `cycle`, holding only an unmount. */
  ghost predicate UnmountRecord(log: Log, i: nat, len: nat, cycle: nat) {
    var n := |log|;
    && i + len <= n && 2 <= len <= REC_BBS
    && log[i].IsHeader() && log[i].cycle == cycle && Version2(log[i]) && log[i].RecordLen() == len
    && log[i].numLogops == 1
    && i + log[i].HeaderBlocks() < n && log[i + log[i].HeaderBlocks()].IsUnmount()
    && forall x :: i < x < i + len ==> log[x].word == cycle
  }

  ghost predicate ZeroedLog(log: Log) {
    forall x :: 0 <= x < |log| ==> log[x].word == 0
  }

  /** One unmount record at block 0 in cycle 1, and zeroes. */
  ghost predicate FreshLog(log: Log, len: nat) {
    && UnmountRecord(log, 0, len, 1)
    && forall x :: len <= x < |log| ==> log[x].word == 0
  }

  /** The length of the filler record that starts at `base`. */
  function TileLen(n: nat, base: nat): nat
    requires base < n
  {
    Min(REC_BBS, n - base)
  }

  /**
   One unmount record at block 0 in `cycle`, zeroes up to block 512, and from there to the end
   records of the previous cycle, all but the last of 512 blocks.
   */
  ghost predicate ClearedLog(log: Log, len: nat, cycle: nat) {
    && 2 <= cycle < HEADER_MAGIC
    && UnmountRecord(log, 0, len, cycle)
    && (forall x :: len <= x < REC_BBS ==> log[x].word == 0)
    && (forall t :: 1 <= t && REC_BBS * t < |log| ==>
          UnmountRecord(log, REC_BBS * t, TileLen(|log|, REC_BBS * t), cycle - 1))
  }

  lemma SmallMod(x: nat, n: nat)
    requires x < n
    ensures x % n == x
  {
  }

  lemma UnmountRecordIsLone(log: Log, i: nat, len: nat, cycle: nat)
    requires UnmountRecord(log, i, len, cycle)
    ensures LoneUnmount(log, i)
  {
    SmallMod(i + log[i].HeaderBlocks(), |log|);
  }

  lemma UnmountRecordEnds(log: Log, i: nat, len: nat, cycle: nat)
    requires UnmountRecord(log, i, len, cycle) && cycle < HEADER_MAGIC
    ensures LastRecord(log, i, i + len) && Span(|log|, i, i + len) == log[i].RecordLen()
    ensures Version2(log[i]) && LoneUnmount(log, i) && log[i].cycle == cycle
  {
    UnmountRecordIsLone(log, i, len, cycle);
  }

  lemma ZeroedIsClean(log: Log)
    requires ZeroedLog(log)
    ensures FindTail(log) == Ok(LogState(0, 0, 0))
  {
  }

  /**
   On any contents: a log whose first block was never written is clean at cycle 0; one whose last block was
   not, though the first is past cycle 1, is corrupt; and so is one without a single header.
   */
  lemma UnwrittenLogs(log: Log)
    ensures log[0].Cycle() == 0 ==> FindTail(log) == Ok(LogState(0, 0, 0))
    ensures log[0].Cycle() > 1 && log[|log| - 1].Cycle() == 0 ==> FindTail(log) == Err(Corrupt)
    ensures log[0].Cycle() != 0 && (forall k :: 0 <= k < |log| ==> !log[k].IsHeader()) ==>
              FindTail(log) == Err(Corrupt)
  {
  }

  /** One whole record at block 0 in cycle 1, and zeroes. */
  ghost predicate StartedLog(log: Log, len: nat) {
    && 2 <= len <= REC_BBS && log[0].IsHeader() && log[0].cycle == 1 && Version2(log[0]) && log[0].RecordLen() == len
    && (forall x :: 0 < x < len ==> log[x].word == 1)
    && forall x :: len <= x < |log| ==> log[x].word == 0
  }

  /** It is clean if that record is a lone unmount, and otherwise reaches back to the block it names. */
  lemma StartedState(log: Log, len: nat)
    requires StartedLog(log, len)
    ensures FindTail(log) == Ok(LogState(len, if LoneUnmount(log, 0) then len else log[0].tailBlock, 1))
  {
    hide LoneUnmount;
    ZeroLapHead(log, len, 0, 0);
    TailAtRecord(log, len, 0);
  }

  lemma FreshIsClean(log: Log, len: nat)
    requires FreshLog(log, len)
    ensures FindTail(log) == Ok(LogState(len, len, 1))
  {
    UnmountRecordEnds(log, 0, len, 1);
    StartedState(log, len);
  }

  lemma ClearedTile(log: Log, len: nat, cycle: nat, x: nat)
    requires ClearedLog(log, len, cycle) && REC_BBS <= x < |log|
    ensures log[x].Cycle() == cycle - 1
    ensures log[x].IsHeader() <==> x % REC_BBS == 0
  {
    var t := x / REC_BBS;
    assert UnmountRecord(log, REC_BBS * t, TileLen(|log|, REC_BBS * t), cycle - 1);
  }

  lemma ClearedCycles(log: Log, len: nat, cycle: nat)
    requires ClearedLog(log, len, cycle)
    ensures log[0].Cycle() == cycle
    ensures forall x :: 0 <= x < REC_BBS ==> log[x].Cycle() == cycle || log[x].Cycle() == 0
    ensures forall x :: REC_BBS <= x < |log| ==> log[x].Cycle() == cycle - 1
  {
    forall x | REC_BBS <= x < |log|
      ensures log[x].Cycle() == cycle - 1
    {
      ClearedTile(log, len, cycle, x);
    }
  }

  lemma ClearedCycleHead(log: Log, len: nat, cycle: nat)
    requires ClearedLog(log, len, cycle)
    ensures FindZeroed(log) == Ok(None) && CycleHead(log) == REC_BBS
  {
    ClearedCycles(log, len, cycle);
    assert 2 <= cycle < HEADER_MAGIC;
    hide ClearedLog, UnmountRecord, CycleStart;
    var n := |log|;
    CycleStartIsBoundary(log, 0, n - 1, cycle - 1);
    assert CycleStart(log, 0, n - 1, cycle - 1) == REC_BBS;
    var v := VerifyCycle(log, n - (TOTAL_REC_BBS - REC_BBS), TOTAL_REC_BBS - REC_BBS, Pred32(cycle - 1));
    assert v.None?;
    var w := VerifyCycle(log, 0, REC_BBS, cycle - 1);
    assert w.None?;
    hide VerifyCycle;
  }

  /** The last filler record runs up to the physical end. */
  lemma ClearedLastTile(log: Log, len: nat, cycle: nat) returns (i: nat)
    requires ClearedLog(log, len, cycle)
    ensures REC_BBS <= i < |log| && UnmountRecord(log, i, |log| - i, cycle - 1)
  {
    var t := (|log| - 1) / REC_BBS;
    i := REC_BBS * t;
    assert UnmountRecord(log, REC_BBS * t, TileLen(|log|, REC_BBS * t), cycle - 1);
  }

  lemma ClearedHead(log: Log, len: nat, cycle: nat)
    requires ClearedLog(log, len, cycle)
    ensures FindHead(log) == Ok(if len == REC_BBS then REC_BBS else 0)
  {
    ClearedCycleHead(log, len, cycle);
    HeaderBelowFinds(log, 0, REC_BBS, 0);
  }

  /**
   What the log clearer leaves at cycle 2 or later is clean at exactly that cycle: at block 0, to
   which the scan backs up from the zeroes, or past the first record when it fills all 512 blocks.
   */
  lemma ClearedIsClean(log: Log, len: nat, cycle: nat)
    requires ClearedLog(log, len, cycle)
    ensures var head := if len == REC_BBS then REC_BBS else 0;
            FindTail(log) == Ok(LogState(head, head, cycle))
  {
    hide FindTail, FindHead, LoneUnmount;
    ClearedHead(log, len, cycle);
    if len == REC_BBS {
      UnmountRecordEnds(log, 0, len, cycle);
      CleanAtRecord(log, REC_BBS, 0);
    } else {
      var i := ClearedLastTile(log, len, cycle);
      UnmountRecordEnds(log, i, |log| - i, cycle - 1);
      CleanAtRecord(log, 0, i);
    }
  }

  // ---------------------------------------------------------------------------------------
  // Arbitrary contents.

  /** Where the search over cycles starts from, and the cycle it takes for stale. */
  function Boundary(log: Log): (b: nat)
    ensures b <= |log|
  {
    var n := |log|;
    if log[0].Cycle() == log[n - 1].Cycle() then n else CycleStart(log, 0, n - 1, log[n - 1].Cycle())
  }

  function StaleCycle(log: Log): nat {
    var last := log[|log| - 1].Cycle();
    if log[0].Cycle() == last then Pred32(last) else last
  }

  /**
   Aligning `head` leaves it or moves it down: it is a record or more from block 0, or there is a
   header below it, or the record that wraps round the physical end to it is whole.
   */
  predicate AlignsDown(log: Log, head: nat)
    requires head <= |log|
  {
    || head >= REC_BBS
    || (exists x :: 0 <= x < head && log[x].IsHeader())
    || match HeaderBelow(log, |log| - (REC_BBS - head), |log|)
       case At(i) => |log| - i + head == log[i].RecordLen()
       case _ => false
  }

  lemma AlignsDownIff(log: Log, head: nat, r: nat)
    requires head <= |log| && AlignHead(log, head) == Ok(r)
    ensures r <= head <==> AlignsDown(log, head)
    ensures !AlignsDown(log, head) ==> head < REC_BBS && head < r < |log|
  {
  }

  lemma NoStaleBelowCycleHead(log: Log)
    requires Boundary(log) >= TOTAL_REC_BBS
    ensures var b, c, stale := Boundary(log), CycleHead(log), StaleCycle(log);
            && b - TOTAL_REC_BBS <= c <= b
            && (c < b ==> log[c].Cycle() == stale)
            && forall x :: b - TOTAL_REC_BBS <= x < c ==> log[x].Cycle() != stale
  {
  }

  /** None of up to 4096 blocks before the boundary and below `head` is of the stale cycle. */
  predicate NoStaleBelow(log: Log, head: nat) {
    forall x :: Boundary(log) - TOTAL_REC_BBS <= x < Boundary(log) && 0 <= x < head ==>
      log[x].Cycle() != StaleCycle(log)
  }

  /** In a log not yet written all the way round the scan for holes is never undone. */
  lemma ZeroedLeavesNoStale(log: Log, head: nat)
    requires Boundary(log) >= TOTAL_REC_BBS && FindZeroed(log) == Ok(Some(head))
    ensures NoStaleBelow(log, head)
  {
  }

  /**
   On any log at all with 4096 blocks before the boundary: none of those below the final head is
   of the stale cycle exactly when the log is not yet written all the way round, or aligning the
   head did not take it back round the physical end. See StaleBelowHead for a log where it does.
   */
  lemma NoStaleBelowHead(log: Log, head: nat)
    requires FindHead(log) == Ok(head) && Boundary(log) >= TOTAL_REC_BBS
    ensures NoStaleBelow(log, head) <==> FindZeroed(log).value.Some? || AlignsDown(log, CycleHead(log))
  {
    hide CycleHead, AlignHead, FindZeroed, CycleStart, AlignsDown, HeaderBelow;
    if FindZeroed(log).value.Some? {
      ZeroedLeavesNoStale(log, head);
    } else {
      var c := CycleHead(log);
      NoStaleBelowCycleHead(log);
      var r := AlignHead(log, c).value;
      AlignsDownIff(log, c, r);
      assert head == if r == |log| then 0 else r;
      if !AlignsDown(log, c) {
        assert c < head && log[c].Cycle() == StaleCycle(log);
      }
    }
  }

  function StaleBlock(x: nat): Block {
    if x == 8092 then Block(HEADER_MAGIC, 1, 2, 10 * BBSIZE, 8092, 1, HEADER_CYCLE_SIZE, 0)
    else if x == 100 || x >= 4096 then PlainBlock(1)
    else PlainBlock(2)
  }

  function StaleLog(): (log: Log)
    ensures |log| == 8192 && forall x :: 0 <= x < |log| ==> log[x] == StaleBlock(x)
  {
    var log := seq(8192, (x: nat) => StaleBlock(x));
    assert |log| == 8192;
    log
  }

  /** A hole at block 100 sends the head round to a header near the end, above the hole. */
  lemma StaleBelowHead()
    ensures var log := StaleLog();
            && Boundary(log) == 4096 && FindHead(log) == Ok(8092) && StaleCycle(log) == log[100].Cycle()
            && !NoStaleBelow(log, 8092)
  {
    var log := StaleLog();
    assert log[0] == StaleBlock(0) && log[8191] == StaleBlock(8191) && log[100] == StaleBlock(100);
    StaleBoundary(log);
    StaleHoles(log);
    StaleAligns(log);
    hide CycleStart, VerifyCycle, AlignHead;
    HeadBy(log, 4096, 100, 8092);
  }

  /** The search, given what each part of it finds, where the boundary is at 4096 or more. */
  lemma HeadBy(log: Log, e: nat, hole: nat, r: nat)
    requires log[0].Cycle() != 0 && log[|log| - 1].Cycle() !in {0, log[0].Cycle()}
    requires e == CycleStart(log, 0, |log| - 1, log[|log| - 1].Cycle()) && e >= TOTAL_REC_BBS
    requires VerifyCycle(log, e - TOTAL_REC_BBS, TOTAL_REC_BBS, log[|log| - 1].Cycle()) == Some(hole)
    requires AlignHead(log, hole) == Ok(r) && r < |log|
    ensures Boundary(log) == e && CycleHead(log) == hole && FindHead(log) == Ok(r)
  {
    hide CycleStart, VerifyCycle, AlignHead;
  }

  lemma StaleBoundary(log: Log)
    requires log == StaleLog()
    ensures CycleStart(log, 0, 8191, 1) == 4096
  {
    hide CycleStart;
    assert log[4095] == StaleBlock(4095);
    Halved(log, 0, 8191, 1);
    CycleStartIsBoundary(log, 4095, 8191, 1);
    var e := CycleStart(log, 4095, 8191, 1);
    assert log[e] == StaleBlock(e) && log[e - 1] == StaleBlock(e - 1);
  }

  lemma StaleHoles(log: Log)
    requires log == StaleLog()
    ensures VerifyCycle(log, 0, 4096, 1) == Some(100)
  {
    assert log[100].Cycle() == 1;
  }

  lemma StaleAligns(log: Log)
    requires log == StaleLog()
    ensures AlignHead(log, 100) == Ok(8092)
  {
    assert HeaderBelow(log, 0, 100) == Exhausted;
    assert log[8092].IsHeader() && log[8092].RecordLen() == 11;
    HeaderBelowFinds(log, 8192 - 412, 8192, 8092);
  }
}
