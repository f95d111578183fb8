/** One log record, as bytes: header, further headers, unmount operation, cycle stamps. */
module LogRecord {
  import opened Prelude
  import opened Bytes
  import opened LogFinder

  const UNMOUNT_TID: nat := 0xb0c0_d0d0
  const CLIENT_LOG: byte := 0xaa
  const UNMOUNT_TRANS: byte := 0x20
  const FMT_LINUX_LE: nat := 1

  /** The cycle and block of a log sequence number. */
  function Lsn(cycle: nat, block: nat): (r: nat)
    requires cycle < TWO_32 && block < TWO_32
    ensures r < TWO_64 && r / TWO_32 == cycle && r % TWO_32 == block
  {
    cycle * TWO_32 + block
  }

  /** The stripe unit a format is given: 1, for none, stands for the log sector size. */
  function ClearSunit(logsunit: nat, logsectsize: nat): nat {
    if logsunit == 1 then logsectsize else logsunit
  }

  /** Header blocks of a record with stripe unit `sunit`. */
  function Hdrs(sunit: nat): nat {
    if sunit > HEADER_CYCLE_SIZE then CeilDiv(sunit, HEADER_CYCLE_SIZE) else 1
  }

  /** Blocks of a record with stripe unit `sunit`. */
  function RecordBbs(sunit: nat): nat {
    Max(if sunit > 0 then CeilDiv(sunit, BBSIZE) else 1, Hdrs(sunit) + 1)
  }

  /** What the search reads of the basic block `b`. */
  function Decode(b: seq<byte>): Block
    requires |b| == BBSIZE
  {
    Block(Be32(b, 0), Be32(b, 4), Be32(b, 8), Be32(b, 12), Be32(b, 28), Be32(b, 40), Be32(b, 320), b[9])
  }

  /** Basic block `k` of a run of blocks. */
  function Bb(log: seq<byte>, k: nat): (b: seq<byte>)
    requires BBSIZE * (k + 1) <= |log|
    ensures |b| == BBSIZE
  {
    log[BBSIZE * k..BBSIZE * (k + 1)]
  }

  // The four kinds of block. Each predicate fixes every byte.

  /** The header, but for the word saved from the operation block. */
  ghost predicate HeaderFields(b: seq<byte>, uuid: seq<byte>, sunit: nat, lsn: nat, tail: nat) {
    && |b| >= BBSIZE && |uuid| == 16
    && Be32(b, 0) == HEADER_MAGIC
    && Be32(b, 4) == lsn / TWO_32
    && Be32(b, 8) == 2
    && Be32(b, 12) == Max(2 * BBSIZE, sunit) - Hdrs(sunit) * BBSIZE
    && Be64(b, 16) == lsn
    && Be64(b, 24) == tail
    && Be32(b, 32) == 0
    && Be32(b, 36) == TWO_32 - 1
    && Be32(b, 40) == 1
    && Be32(b, 300) == FMT_LINUX_LE
    && b[304..320] == uuid
    && Be32(b, 320) == Max(sunit, HEADER_CYCLE_SIZE)
    && forall i :: 48 <= i < 300 || 324 <= i < BBSIZE ==> b[i] == 0
  }

  ghost predicate HeaderBlock(b: seq<byte>, uuid: seq<byte>, sunit: nat, lsn: nat, tail: nat) {
    |b| == BBSIZE && HeaderFields(b, uuid, sunit, lsn, tail) && Be32(b, 44) == UNMOUNT_TID
  }

  ghost predicate StampBlock(b: seq<byte>, cycle: nat) {
    && |b| == BBSIZE && Be32(b, 0) == cycle
    && forall i :: 4 <= i < BBSIZE ==> b[i] == 0
  }

  ghost predicate UnmountBlock(b: seq<byte>, cycle: nat) {
    && |b| == BBSIZE && Be32(b, 0) == cycle && Be32(b, 4) == 8
    && b[8] == CLIENT_LOG && b[9] == UNMOUNT_TRANS
    && b[12] == 0x6e && b[13] == 0x55
    && forall i :: 10 <= i < 12 || 14 <= i < BBSIZE ==> b[i] == 0
  }

  ghost predicate ZeroBlock(b: seq<byte>) {
    |b| == BBSIZE && forall i :: 0 <= i < BBSIZE ==> b[i] == 0
  }

  /** Block `k` of the record. */
  ghost predicate RecordBlock(b: seq<byte>, k: nat, uuid: seq<byte>, sunit: nat, lsn: nat, tail: nat) {
    if k == 0 then HeaderBlock(b, uuid, sunit, lsn, tail)
    else if k == Hdrs(sunit) then UnmountBlock(b, lsn / TWO_32)
    else StampBlock(b, lsn / TWO_32)
  }

  ghost predicate IsRecord(rec: seq<byte>, uuid: seq<byte>, sunit: nat, lsn: nat, tail: nat) {
    && |rec| == BBSIZE * RecordBbs(sunit)
    && forall k :: 0 <= k < RecordBbs(sunit) ==> RecordBlock(Bb(rec, k), k, uuid, sunit, lsn, tail)
  }

  /**
   Writer and readers agree. For every stripe unit the record is as long as the clearer, which
   counts on its own, expects; both readers decode that length and the same header count; and
   the 32-bit length field does not underflow.
   */
  lemma RecordLengthsAgree(sunit: nat)
    ensures RecordBbs(sunit) == Max(2, CeilDiv(sunit, BBSIZE))
    ensures Hdrs(sunit) == CeilDiv(Max(sunit, HEADER_CYCLE_SIZE), HEADER_CYCLE_SIZE)
    ensures Hdrs(sunit) * BBSIZE < Max(2 * BBSIZE, sunit)
    ensures CeilDiv(Max(2 * BBSIZE, sunit) - Hdrs(sunit) * BBSIZE, BBSIZE) + Hdrs(sunit) == RecordBbs(sunit)
    ensures sunit <= 256 * 1024 ==> RecordBbs(sunit) <= REC_BBS
  {
  }

  method FillHeader(rec: array<byte>, uuid: seq<byte>, sunit: nat, lsn: nat, tail: nat)
    requires rec.Length >= BBSIZE && |uuid| == 16
    requires sunit < TWO_32 && lsn < TWO_64 && tail < TWO_64
    requires forall i :: 0 <= i < rec.Length ==> rec[i] == 0
    modifies rec
    ensures HeaderFields(rec[..], uuid, sunit, lsn, tail)
    ensures forall i :: BBSIZE <= i < rec.Length ==> rec[i] == 0
  {
    RecordLengthsAgree(sunit);
    FillStart(rec, lsn / TWO_32);
    FillMiddle(rec, Max(2 * BBSIZE, sunit) - Hdrs(sunit) * BBSIZE, lsn, tail);
    FillEnd(rec, uuid, sunit);
  }

  method FillMiddle(rec: array<byte>, len: nat, lsn: nat, tail: nat)
    requires rec.Length >= BBSIZE && len < TWO_32 && lsn < TWO_64 && tail < TWO_64
    modifies rec
    ensures Be32(rec[..], 12) == len && Be64(rec[..], 16) == lsn && Be64(rec[..], 24) == tail
    ensures forall i :: 0 <= i < rec.Length && !(12 <= i < 32) ==> rec[i] == old(rec[i])
  {
    Put64(rec, 16, lsn);
    Put64(rec, 24, tail);
    Put32(rec, 12, len);
  }

  method FillStart(rec: array<byte>, cycle: nat)
    requires rec.Length >= BBSIZE && cycle < TWO_32
    modifies rec
    ensures Be32(rec[..], 0) == HEADER_MAGIC && Be32(rec[..], 4) == cycle && Be32(rec[..], 8) == 2
    ensures Be32(rec[..], 32) == 0 && Be32(rec[..], 36) == TWO_32 - 1 && Be32(rec[..], 40) == 1
    ensures forall i :: 12 <= i < rec.Length && !(32 <= i < 44) ==> rec[i] == old(rec[i])
  {
    Put32(rec, 0, HEADER_MAGIC);
    Put32(rec, 4, cycle);
    Put32(rec, 8, 2);
    Put32(rec, 32, 0);
    Put32(rec, 36, TWO_32 - 1);
    Put32(rec, 40, 1);
  }

  method FillEnd(rec: array<byte>, uuid: seq<byte>, sunit: nat)
    requires rec.Length >= BBSIZE && |uuid| == 16 && sunit < TWO_32
    modifies rec
    ensures Be32(rec[..], 300) == FMT_LINUX_LE && Be32(rec[..], 320) == Max(sunit, HEADER_CYCLE_SIZE)
    ensures rec[304..320] == uuid
    ensures forall i :: 0 <= i < rec.Length && !(300 <= i < 324) ==> rec[i] == old(rec[i])
  {
    Put32(rec, 300, FMT_LINUX_LE);
    Put32(rec, 320, Max(sunit, HEADER_CYCLE_SIZE));
    forall i | 0 <= i < 16 {
      rec[304 + i] := uuid[i];
    }
  }

  /** Stamp the zero block `k` with the cycle. */
  method Stamp(rec: array<byte>, k: nat, cycle: nat)
    requires BBSIZE * (k + 1) <= rec.Length && cycle < TWO_32
    requires ZeroBlock(Bb(rec[..], k))
    modifies rec
    ensures StampBlock(Bb(rec[..], k), cycle)
    ensures forall i :: 0 <= i < rec.Length && (i < BBSIZE * k || BBSIZE * (k + 1) <= i) ==> rec[i] == old(rec[i])
  {
    Put32(rec, BBSIZE * k, cycle);
    ghost var b := Bb(rec[..], k);
    assert forall i :: 0 <= i < BBSIZE ==> b[i] == rec[BBSIZE * k + i];
  }

  /** The unmount operation at byte `u`, before its block is stamped. */
  method FillOperation(rec: array<byte>, u: nat)
    requires u + BBSIZE <= rec.Length
    modifies rec
    ensures Be32(rec[..], u) == UNMOUNT_TID && Be32(rec[..], u + 4) == 8
    ensures rec[u + 8] == CLIENT_LOG && rec[u + 9] == UNMOUNT_TRANS && rec[u + 12] == 0x6e && rec[u + 13] == 0x55
    ensures forall i :: 0 <= i < rec.Length && !(u <= i < u + 10 || u + 12 <= i < u + 14) ==> rec[i] == old(rec[i])
  {
    rec[u + 8], rec[u + 9], rec[u + 12], rec[u + 13] := CLIENT_LOG, UNMOUNT_TRANS, 0x6e, 0x55;
    Put32(rec, u, UNMOUNT_TID);
    Put32(rec, u + 4, 8);
  }

  /**
   The unmount operation in the zero block `k`. Its own first word moves to the header's cycle
   data, where the block's cycle stamp displaced it.
   */
  method FillUnmount(rec: array<byte>, k: nat, cycle: nat)
    requires 1 <= k && BBSIZE * (k + 1) <= rec.Length && cycle < TWO_32
    requires ZeroBlock(Bb(rec[..], k))
    modifies rec
    ensures UnmountBlock(Bb(rec[..], k), cycle)
    ensures Be32(rec[..], 44) == UNMOUNT_TID
    ensures forall i :: 0 <= i < rec.Length && !(44 <= i < 48 || BBSIZE * k <= i < BBSIZE * (k + 1)) ==>
              rec[i] == old(rec[i])
  {
    var u := BBSIZE * k;
    ghost var before := rec[..];
    FillOperation(rec, u);
    var first := Be32(rec[..], u);
    Put32(rec, 44, first);
    Put32(rec, u, cycle);
    UnmountAt(before, rec[..], k, cycle);
  }

  lemma UnmountAt(before: seq<byte>, after: seq<byte>, k: nat, cycle: nat)
    requires BBSIZE * (k + 1) <= |before| == |after| && ZeroBlock(Bb(before, k))
    requires var u := BBSIZE * k;
             && Be32(after, u) == cycle && Be32(after, u + 4) == 8
             && after[u + 8] == CLIENT_LOG && after[u + 9] == UNMOUNT_TRANS
             && after[u + 12] == 0x6e && after[u + 13] == 0x55
             && forall i :: u + 10 <= i < u + 12 || u + 14 <= i < u + BBSIZE ==> after[i] == before[i]
    ensures UnmountBlock(Bb(after, k), cycle)
  {
    var u := BBSIZE * k;
    var a, b := Bb(before, k), Bb(after, k);
    assert forall i :: 0 <= i < BBSIZE ==> a[i] == before[u + i] && b[i] == after[u + i];
  }

  /** Equal bytes are equal blocks. */
  lemma SameBlock(a: seq<byte>, b: seq<byte>, k: nat)
    requires BBSIZE * (k + 1) <= |a| && BBSIZE * (k + 1) <= |b|
    requires forall i :: BBSIZE * k <= i < BBSIZE * (k + 1) ==> a[i] == b[i]
    ensures Bb(a, k) == Bb(b, k)
  {
  }

  lemma ZeroBlocks(rec: seq<byte>, k: nat)
    requires BBSIZE * (k + 1) <= |rec|
    requires forall i :: BBSIZE * k <= i < BBSIZE * (k + 1) ==> rec[i] == 0
    ensures ZeroBlock(Bb(rec, k))
  {
  }

  /** Header and headers' tail written up to block `i`, zeroes after. */
  ghost predicate Headed(rec: seq<byte>, i: nat, uuid: seq<byte>, sunit: nat, lsn: nat, tail: nat) {
    && |rec| == BBSIZE * RecordBbs(sunit) && 1 <= i <= Hdrs(sunit)
    && HeaderFields(rec, uuid, sunit, lsn, tail)
    && (forall k :: 1 <= k < i ==> StampBlock(Bb(rec, k), lsn / TWO_32))
    && (forall j :: BBSIZE * i <= j < |rec| ==> rec[j] == 0)
  }

  ghost predicate OnlyBlockChanged(before: seq<byte>, after: seq<byte>, i: nat) {
    && |before| == |after|
    && forall j :: 0 <= j < |after| && (j < BBSIZE * i || BBSIZE * (i + 1) <= j) ==> after[j] == before[j]
  }

  lemma HeadedStep(before: seq<byte>, after: seq<byte>, i: nat, uuid: seq<byte>, sunit: nat, lsn: nat, tail: nat)
    requires Headed(before, i, uuid, sunit, lsn, tail) && i < Hdrs(sunit)
    requires OnlyBlockChanged(before, after, i) && StampBlock(Bb(after, i), lsn / TWO_32)
    ensures Headed(after, i + 1, uuid, sunit, lsn, tail)
  {
    SameHeader(before, after, uuid, sunit, lsn, tail);
    forall k | 1 <= k < i
      ensures Bb(after, k) == Bb(before, k)
    {
      SameBlock(after, before, k);
    }
  }

  method FillHeaders(rec: array<byte>, uuid: seq<byte>, sunit: nat, lsn: nat, tail: nat)
    requires rec.Length == BBSIZE * RecordBbs(sunit)
    requires |uuid| == 16 && sunit < TWO_32 && lsn < TWO_64 && tail < TWO_64
    requires forall i :: 0 <= i < rec.Length ==> rec[i] == 0
    modifies rec
    ensures Headed(rec[..], Hdrs(sunit), uuid, sunit, lsn, tail)
  {
    FillHeader(rec, uuid, sunit, lsn, tail);
    var i := 1;
    while i < Hdrs(sunit)
      invariant Headed(rec[..], i, uuid, sunit, lsn, tail)
    {
      ghost var before := rec[..];
      ZeroBlocks(before, i);
      Stamp(rec, i, lsn / TWO_32);
      HeadedStep(before, rec[..], i, uuid, sunit, lsn, tail);
      i := i + 1;
    }
  }

  lemma SameHeader(a: seq<byte>, b: seq<byte>, uuid: seq<byte>, sunit: nat, lsn: nat, tail: nat)
    requires |a| >= BBSIZE && |b| >= BBSIZE && forall i :: 0 <= i < BBSIZE && !(44 <= i < 48) ==> a[i] == b[i]
    ensures HeaderFields(a, uuid, sunit, lsn, tail) ==> HeaderFields(b, uuid, sunit, lsn, tail)
  {
    if HeaderFields(a, uuid, sunit, lsn, tail) {
      assert a[304..320] == b[304..320];
      forall o: nat | o + 4 <= BBSIZE && (o + 4 <= 44 || 48 <= o)
        ensures Be32(a, o) == Be32(b, o)
      {
        SameField(a, b, o);
      }
    }
  }

  /** The first `i` blocks of the record, zeroes after. */
  ghost predicate Stamped(rec: seq<byte>, i: nat, uuid: seq<byte>, sunit: nat, lsn: nat, tail: nat) {
    && |rec| == BBSIZE * RecordBbs(sunit) && i <= RecordBbs(sunit)
    && (forall k :: 0 <= k < i ==> RecordBlock(Bb(rec, k), k, uuid, sunit, lsn, tail))
    && (forall j :: BBSIZE * i <= j < |rec| ==> rec[j] == 0)
  }

  lemma StampedStep(before: seq<byte>, after: seq<byte>, i: nat, uuid: seq<byte>, sunit: nat, lsn: nat, tail: nat)
    requires Stamped(before, i, uuid, sunit, lsn, tail) && Hdrs(sunit) < i < RecordBbs(sunit)
    requires OnlyBlockChanged(before, after, i) && StampBlock(Bb(after, i), lsn / TWO_32)
    ensures Stamped(after, i + 1, uuid, sunit, lsn, tail)
  {
    forall k | 0 <= k < i
      ensures Bb(after, k) == Bb(before, k)
    {
      SameBlock(after, before, k);
    }
  }

  lemma UnmountAfterHeaders(
      before: seq<byte>, after: seq<byte>, uuid: seq<byte>, sunit: nat, lsn: nat, tail: nat)
    requires Headed(before, Hdrs(sunit), uuid, sunit, lsn, tail) && |after| == |before|
    requires UnmountBlock(Bb(after, Hdrs(sunit)), lsn / TWO_32) && Be32(after, 44) == UNMOUNT_TID
    requires forall i | 0 <= i < |after| && !(44 <= i < 48) ::
               BBSIZE * Hdrs(sunit) <= i < BBSIZE * (Hdrs(sunit) + 1) || after[i] == before[i]
    ensures Stamped(after, Hdrs(sunit) + 1, uuid, sunit, lsn, tail)
  {
    var hdrs := Hdrs(sunit);
    forall k | 0 <= k < hdrs + 1
      ensures RecordBlock(Bb(after, k), k, uuid, sunit, lsn, tail)
    {
      if k == 0 {
        SameHeader(before, after, uuid, sunit, lsn, tail);
        SameHeader(after, Bb(after, 0), uuid, sunit, lsn, tail);
        SameField(after, Bb(after, 0), 44);
      } else if k < hdrs {
        SameBlock(before, after, k);
      }
    }
  }

  /** One log record holding only an unmount record. */
  method Record(uuid: seq<byte>, sunit: nat, lsn: nat, tail: nat) returns (rec: array<byte>)
    requires |uuid| == 16 && sunit < TWO_32 && lsn < TWO_64 && tail < TWO_64
    ensures fresh(rec) && IsRecord(rec[..], uuid, sunit, lsn, tail)
  {
    var hdrs, n := Hdrs(sunit), RecordBbs(sunit);
    rec := new byte[n * BBSIZE](_ => 0);
    FillHeaders(rec, uuid, sunit, lsn, tail);
    ghost var headers := rec[..];
    ZeroBlocks(headers, hdrs);
    FillUnmount(rec, hdrs, lsn / TWO_32);
    UnmountAfterHeaders(headers, rec[..], uuid, sunit, lsn, tail);
    for i := hdrs + 1 to n
      invariant Stamped(rec[..], i, uuid, sunit, lsn, tail)
    {
      ghost var before := rec[..];
      ZeroBlocks(before, i);
      Stamp(rec, i, lsn / TWO_32);
      StampedStep(before, rec[..], i, uuid, sunit, lsn, tail);
    }
  }
}
