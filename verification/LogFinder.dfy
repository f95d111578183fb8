/**
 The log's head and tail search as a function of the log's contents.

 A basic block is abstracted to what the search reads of it: its first word, the header
 fields it would have if that word is the header magic, and the flag byte its operation
 header would have. LogReader runs the same search over a device.
 */
module LogFinder {
  import opened Prelude

  const HEADER_MAGIC: nat := 0xfeed_babe
  const HEADER_CYCLE_SIZE: nat := 32 * 1024
  const BBSIZE: nat := 512
  /** The longest record, in basic blocks. */
  const REC_BBS: nat := 512
  /** The most that can be in flight at once: eight records. */
  const TOTAL_REC_BBS: nat := 4096

  datatype Block = Block(
    word: nat,
    cycle: nat,
    version: nat,
    len: nat,
    tailBlock: nat,
    numLogops: nat,
    size: nat,
    opFlags: nat)
  {
    predicate IsHeader() {
      word == HEADER_MAGIC
    }

    /** The cycle the block was written in. */
    function Cycle(): nat {
      if IsHeader() then cycle else word
    }

    /** The record's length in blocks, as the head search decodes it. */
    function RecordLen(): nat {
      CeilDiv(len, BBSIZE) + CeilDiv(size, HEADER_CYCLE_SIZE)
    }

    /** The number of header blocks, as the tail search decodes it. */
    function HeaderBlocks(): nat {
      if version / 2 % 2 == 1 && size > HEADER_CYCLE_SIZE then CeilDiv(size, HEADER_CYCLE_SIZE) else 1
    }

    predicate IsUnmount() {
      opFlags / 32 % 2 == 1
    }
  }

  type Log = log: seq<Block> | |log| >= TOTAL_REC_BBS
    witness seq(TOTAL_REC_BBS, _ => Block(0, 0, 0, 0, 0, 0, 0, 0))

  datatype LogState = LogState(head: nat, tail: nat, cycle: nat) {
    predicate Dirty() {
      head != tail
    }
  }

  /** Unsigned 32-bit decrement, as `wrapping_sub(1)`. */
  function Pred32(c: nat): nat {
    if c == 0 then TWO_32 - 1 else c - 1
  }

  /** Unsigned 32-bit increment, wrapping as a release build does. */
  function Succ32(c: nat): nat {
    if c == TWO_32 - 1 then 0 else c + 1
  }

  /** Bisect `(first, end]` for a block with cycle `target`. */
  function CycleStart(log: seq<Block>, first: nat, end: nat, target: nat): (r: nat)
    requires first <= end < |log|
    ensures first <= r <= end
    ensures first < end ==> first < r
    decreases end - first
  {
    var mid := (first + end) / 2;
    if mid == first || mid == end then end
    else if log[mid].Cycle() == target then CycleStart(log, first, mid, target)
    else CycleStart(log, mid, end, target)
  }

  /** The first block of `start..start+n` with cycle `stop`. */
  function VerifyCycle(log: seq<Block>, start: nat, n: nat, stop: nat): (r: Option<nat>)
    requires start + n <= |log|
    ensures r.Some? ==> start <= r.value < start + n && log[r.value].Cycle() == stop
    ensures r.Some? ==> forall x :: start <= x < r.value ==> log[x].Cycle() != stop
    ensures r.None? ==> forall x :: start <= x < start + n ==> log[x].Cycle() != stop
    decreases n
  {
    if n == 0 then None
    else if log[start].Cycle() == stop then Some(start)
    else VerifyCycle(log, start + 1, n - 1, stop)
  }

  /** Where a backward scan for a record header ends. */
  datatype Scan = At(block: nat) | Exhausted | PastStart

  /** Scan back from `last` for a header, giving up below `start`. */
  function HeaderBelow(log: seq<Block>, start: nat, last: nat): (r: Scan)
    requires last <= |log|
    ensures r.At? ==> start <= r.block < last && log[r.block].IsHeader()
    ensures r.At? ==> forall x :: r.block < x < last ==> !log[x].IsHeader()
    ensures r.Exhausted? ==> forall x :: 0 <= x < last ==> !log[x].IsHeader()
    ensures r.Exhausted? ==> start == 0 || last == 0
    ensures r.PastStart? ==> 0 < start && 0 < last && forall x :: start <= x < last ==> !log[x].IsHeader()
    decreases last
  {
    if last == 0 then Exhausted
    else if last - 1 < start then PastStart
    else if log[last - 1].IsHeader() then At(last - 1)
    else HeaderBelow(log, start, last - 1)
  }

  /** Back `last` up over a partly written record; `Ok(None)` when there is no header below it. */
  function VerifyRecord(log: seq<Block>, start: nat, last: nat, extra: nat): (r: Result<Option<nat>>)
    requires last <= |log|
    ensures r.Ok? && r.value.Some? ==> start <= r.value.value <= last
  {
    match HeaderBelow(log, start, last)
    case PastStart => Err(Corrupt)
    case Exhausted => Ok(None)
    case At(i) => Ok(Some(if last - i + extra != log[i].RecordLen() then i else last))
  }

  /** From `end`, the start of the zeroed part, back over holes and a partly written record. */
  function ZeroedHead(log: Log, end: nat): (r: Result<Option<nat>>)
    requires end < |log|
    ensures r.Ok? && r.value.Some? ==> r.value.value < |log|
  {
    var span := Min(TOTAL_REC_BBS, end);
    var v := VerifyCycle(log, end - span, span, 0);
    var last := if v.Some? then v.value else end;
    var rec :- VerifyRecord(log, end - span, last, 0);
    if rec.None? then Err(Corrupt) else Ok(rec)
  }

  /** The first zero block of a log not yet written all the way round. */
  function FindZeroed(log: Log): (r: Result<Option<nat>>)
    ensures r.Ok? && r.value.Some? ==> r.value.value < |log|
  {
    var n := |log|;
    var first := log[0].Cycle();
    if first == 0 then Ok(Some(0))
    else if log[n - 1].Cycle() != 0 then Ok(None)
    else if first != 1 then Err(Corrupt)
    else
      ZeroedHead(log, CycleStart(log, 0, n - 1, 0))
  }

  /** The first hole of up to eight records behind `head`, stale by `stop` or, past the end, a cycle more. */
  function HoleBelow(log: Log, head: nat, stop: nat): (r: nat)
    requires head <= |log|
    ensures r <= |log|
  {
    var n := |log|;
    if head >= TOTAL_REC_BBS then
      var v := VerifyCycle(log, head - TOTAL_REC_BBS, TOTAL_REC_BBS, stop);
      if v.Some? then v.value else head
    else
      var v := VerifyCycle(log, n - (TOTAL_REC_BBS - head), TOTAL_REC_BBS - head, Pred32(stop));
      if v.Some? then v.value
      else
        var w := VerifyCycle(log, 0, head, stop);
        if w.Some? then w.value else head
  }

  /** The boundary between the newest two cycles, before it is aligned to a record: 1 to |log|. */
  function CycleHead(log: Log): (r: nat)
    ensures r <= |log|
  {
    var n := |log|;
    var firstHalf, lastHalf := log[0].Cycle(), log[n - 1].Cycle();
    var head := if firstHalf == lastHalf then n else CycleStart(log, 0, n - 1, lastHalf);
    var stop := if firstHalf == lastHalf then Pred32(lastHalf) else lastHalf;
    HoleBelow(log, head, stop)
  }

  /** `head` backed up so that it is not inside a record; 1 to |log|. */
  function AlignHead(log: Log, head: nat): (r: Result<nat>)
    requires head <= |log|
    ensures r.Ok? ==> r.value <= |log|
  {
    var n := |log|;
    if head >= REC_BBS then
      var rec :- VerifyRecord(log, head - REC_BBS, head, 0);
      if rec.None? then Err(Corrupt) else Ok(rec.value)
    else
      var rec :- VerifyRecord(log, 0, head, 0);
      if rec.Some? then Ok(rec.value)
      else
        var wrapped :- VerifyRecord(log, n - (REC_BBS - head), n, head);
        if wrapped.None? then Err(Corrupt)
        else if wrapped.value != n then Ok(wrapped.value)
        else Ok(head)
  }

  function FindHead(log: Log): (r: Result<nat>)
    ensures r.Ok? ==> r.value < |log|
  {
    var zeroed :- FindZeroed(log);
    if zeroed.Some? then Ok(zeroed.value)
    else
      var head :- AlignHead(log, CycleHead(log));
      Ok(if head == |log| then 0 else head)
  }

  /** The last header before `head` in log order: its block, and whether it is in the cycle before. */
  function SyncRecord(log: Log, head: nat): Option<(nat, bool)>
    requires head <= |log|
  {
    match HeaderBelow(log, 0, head)
    case At(i) => Some((i, false))
    case _ =>
      match HeaderBelow(log, head, |log|)
      case At(i) => Some((i, true))
      case _ => None
  }

  /** The log's state, given that the record at `i` is the last before `head`. */
  function StateAt(log: Log, head: nat, i: nat, wrapped: bool): LogState
    requires i < |log|
  {
    var h := log[i];
    var cycle := if wrapped then Succ32(h.cycle) else h.cycle;
    var hblks := h.HeaderBlocks();
    var after := (i + hblks + CeilDiv(h.len, BBSIZE)) % |log|;
    var unmounted := head == after && h.numLogops == 1 && log[(i + hblks) % |log|].IsUnmount();
    LogState(head, if unmounted then after else h.tailBlock, cycle)
  }

  function FindTail(log: Log): Result<LogState>
  {
    var head :- FindHead(log);
    if head == 0 && log[0].Cycle() == 0 then Ok(LogState(0, 0, 0))
    else
      match SyncRecord(log, head)
      case None => Err(Corrupt)
      case Some((i, wrapped)) =>
        Ok(StateAt(log, head, i, wrapped))
  }
}
