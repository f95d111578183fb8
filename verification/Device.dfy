/** The sparse in-memory device, and the flat array of bytes it stands for. */
module Device {
  import opened Prelude
  import opened Bytes

  /** Granularity of the sparse storage. */
  const CHUNK: nat := 64 * 1024
  /** Zeroes per write of the default `write_zeroes`. */
  const ZERO_CHUNK: nat := 1024 * 1024

  function CheckBounds(offset: nat, len: nat, size: nat): Result<()> {
    if offset + len < TWO_64 && offset + len <= size then Ok(()) else Err(OutOfBounds)
  }

  /** What a device answers a request before it does anything: bounds first, then alignment. */
  function Admit(size: nat, logical: pos, strict: bool, offset: nat, len: nat): (r: Result<()>)
    ensures r.Ok? ==> offset + len <= size
    ensures r.Err? ==> r.error.FromDevice()
  {
    var _ :- CheckBounds(offset, len, size);
    if strict && (offset % logical != 0 || len % logical != 0) then Err(Io) else Ok(())
  }

  /** Inside the device, and whole sectors where it insists on them; outside is out of bounds. */
  lemma AdmitIff(size: nat, logical: pos, strict: bool, offset: nat, len: nat)
    ensures Admit(size, logical, strict, offset, len) ==
            if offset + len > size || offset + len >= 0x1_0000_0000_0000_0000 then Err(OutOfBounds)
            else if strict && !(offset % logical == 0 && len % logical == 0) then Err(Io)
            else Ok(())
  {
  }

  /** `flat` with `data` in place of what was at `offset`. */
  function Splice(flat: seq<byte>, offset: nat, data: seq<byte>): (r: seq<byte>)
    requires offset + |data| <= |flat|
    ensures |r| == |flat|
    ensures forall i :: 0 <= i < |r| ==>
              r[i] == if offset <= i < offset + |data| then data[i - offset] else flat[i]
  {
    flat[..offset] + data + flat[offset + |data|..]
  }

  function Zeroes(len: nat): (r: seq<byte>)
    ensures |r| == len && forall i :: 0 <= i < len ==> r[i] == 0
  {
    seq(len, _ => 0)
  }

  /** The same bytes but for `len` from `offset` on. */
  ghost predicate SameBut(a: seq<byte>, b: seq<byte>, offset: nat, len: nat) {
    |a| == |b| && forall i :: 0 <= i < |a| && !(offset <= i < offset + len) ==> a[i] == b[i]
  }

  lemma SpliceIsWithin(flat: seq<byte>, offset: nat, data: seq<byte>, len: nat)
    requires offset + |data| <= |flat| && |data| <= len
    ensures SameBut(flat, Splice(flat, offset, data), offset, len)
  {
  }

  /** The bytes of `pos`'s chunk, from `pos` on, are those whose quotient is the chunk. */
  lemma SameChunk(pos: nat, i: nat)
    ensures pos <= i < pos - pos % CHUNK + CHUNK ==>
              i / CHUNK == pos / CHUNK && i % CHUNK == pos % CHUNK + (i - pos)
    ensures i / CHUNK == pos / CHUNK ==> i - pos == i % CHUNK - pos % CHUNK
  {
  }

  class MemDevice {
    var chunks: map<nat, seq<byte>>
    const size: nat
    const logical: pos
    const strict: bool

    ghost predicate Valid()
      reads this
    {
      && size < TWO_64
      && forall k :: k in chunks ==> |chunks[k]| == CHUNK
    }

    /** The byte the device reads back at `i`. */
    ghost function ByteAt(i: nat): byte
      requires Valid()
      reads this
    {
      if i / CHUNK in chunks then chunks[i / CHUNK][i % CHUNK] else 0
    }

    /** The flat array of bytes the device stands for. */
    ghost function Contents(): (flat: seq<byte>)
      requires Valid()
      reads this
      ensures |flat| == size && forall i :: 0 <= i < size ==> flat[i] == ByteAt(i)
    {
      seq(size, (i: nat) requires Valid() reads this => ByteAt(i))
    }

    function Check(offset: nat, len: nat): Result<()> {
      Admit(size, logical, strict, offset, len)
    }

    /** Whether a request gets past the device's checks. */
    predicate Accepts(offset: nat, len: nat) {
      Check(offset, len).Ok?
    }

    constructor (size: nat, logical: pos, strict: bool)
      requires size < TWO_64
      ensures Valid() && this.size == size && this.logical == logical && this.strict == strict
      ensures Contents() == Zeroes(size)
    {
      this.chunks := map[];
      this.size := size;
      this.logical := logical;
      this.strict := strict;
    }

    method CopyOut(offset: nat, buf: array<byte>)
      requires Valid()
      modifies buf
      ensures forall j :: 0 <= j < buf.Length ==> buf[j] == ByteAt(offset + j)
    {
      var done := 0;
      while done < buf.Length
        invariant 0 <= done <= buf.Length
        invariant forall j :: 0 <= j < done ==> buf[j] == ByteAt(offset + j)
      {
        var pos := offset + done;
        var idx, within := pos / CHUNK, pos % CHUNK;
        var n := Min(buf.Length - done, CHUNK - within);
        forall i | pos <= i < pos + n
          ensures i / CHUNK == idx && i % CHUNK == within + (i - pos)
        {
          SameChunk(pos, i);
        }
        if idx in chunks {
          var c := chunks[idx];
          forall j | 0 <= j < n {
            buf[done + j] := c[within + j];
          }
        } else {
          forall j | 0 <= j < n {
            buf[done + j] := 0;
          }
        }
        assert forall j :: done <= j < done + n ==> buf[j] == ByteAt(offset + j);
        done := done + n;
      }
    }

    method CopyIn(offset: nat, data: seq<byte>)
      requires Valid()
      modifies this
      ensures Valid()
      ensures forall i: nat :: ByteAt(i) ==
                if offset <= i < offset + |data| then data[i - offset] else old(ByteAt(i))
    {
      var done := 0;
      while done < |data|
        invariant 0 <= done <= |data|
        invariant Valid()
        invariant forall i: nat :: ByteAt(i) ==
                    if offset <= i < offset + done then data[i - offset] else old(ByteAt(i))
      {
        var pos := offset + done;
        var idx, within := pos / CHUNK, pos % CHUNK;
        var n := Min(|data| - done, CHUNK - within);
        var src := data[done..done + n];
        PutChunk(idx, within, src);
        forall i: nat
          ensures i / CHUNK == idx && within <= i % CHUNK < within + n <==> pos <= i < pos + n
          ensures pos <= i < pos + n ==> i % CHUNK - within == i - pos
        {
          SameChunk(pos, i);
        }
        done := done + n;
      }
    }

    /** One step of `copy_in`: `src` into chunk `idx`, all zeroes without memory. */
    method PutChunk(idx: nat, within: nat, src: seq<byte>)
      requires Valid() && within + |src| <= CHUNK && 0 < |src|
      modifies this
      ensures Valid()
      ensures forall i: nat :: ByteAt(i) ==
                if i / CHUNK == idx && within <= i % CHUNK < within + |src| then src[i % CHUNK - within]
                else old(ByteAt(i))
    {
      if forall j :: 0 <= j < |src| ==> src[j] == 0 {
        if |src| == CHUNK {
          chunks := chunks - {idx};
        } else if idx in chunks {
          chunks := chunks[idx := Splice(chunks[idx], within, Zeroes(|src|))];
        }
      } else {
        var c := if idx in chunks then chunks[idx] else Zeroes(CHUNK);
        chunks := chunks[idx := Splice(c, within, src)];
      }
    }

    /** Zero what `[offset, end)` holds of the stored chunk `idx`: a whole chunk is dropped. */
    method ZeroChunk(idx: nat, offset: nat, end: nat)
      requires Valid() && idx in chunks
      requires offset < (idx + 1) * CHUNK && idx * CHUNK < end && offset <= end
      modifies this
      ensures Valid() && chunks.Keys <= old(chunks.Keys) && old(chunks.Keys) <= chunks.Keys + {idx}
      ensures forall i: nat :: ByteAt(i) ==
                if i / CHUNK == idx && offset <= i < end then 0 else old(ByteAt(i))
    {
      var cs, ce := idx * CHUNK, (idx + 1) * CHUNK;
      var zs, ze := Max(offset, cs), Min(end, ce);
      if zs == cs && ze == ce {
        chunks := chunks - {idx};
      } else {
        chunks := chunks[idx := Splice(chunks[idx], zs - cs, Zeroes(ze - zs))];
      }
      forall i: nat | i / CHUNK == idx
        ensures cs <= i < ce && i % CHUNK == i - cs
      {
      }
    }

    /** The overridden `write_zeroes`: only chunks that exist are touched. */
    method WriteZeroes(offset: nat, len: nat) returns (r: Result<()>)
      requires Valid()
      modifies this
      ensures Valid()
      ensures r == Check(offset, len)
      ensures r.Err? ==> Contents() == old(Contents())
      ensures r.Ok? ==> Contents() == Splice(old(Contents()), offset, Zeroes(len))
    {
      var _ :- Check(offset, len);
      var end := offset + len;
      var first, last := offset / CHUNK, CeilDiv(end, CHUNK);
      var keys := set k | k in chunks.Keys && first <= k < last;
      ghost var all := keys;
      while keys != {}
        invariant Valid() && keys <= all && keys <= chunks.Keys
        invariant forall i: nat :: ByteAt(i) ==
                    if i / CHUNK in all - keys && offset <= i < end then 0 else old(ByteAt(i))
        decreases |keys|
      {
        var idx :| idx in keys;
        WholeChunk(offset, end, idx);
        ZeroChunk(idx, offset, end);
        keys := keys - {idx};
      }
      forall i | offset <= i < end && i / CHUNK !in all
        ensures old(ByteAt(i)) == 0
      {
        DivInRange(offset, end, i);
      }
      r := Ok(());
    }

    method ReadAt(offset: nat, buf: array<byte>) returns (r: Result<()>)
      requires Valid()
      modifies buf
      ensures r == Check(offset, buf.Length)
      ensures r.Err? ==> buf[..] == old(buf[..])
      ensures r.Ok? ==> buf[..] == Contents()[offset..offset + buf.Length]
    {
      var _ :- Check(offset, buf.Length);
      CopyOut(offset, buf);
      r := Ok(());
    }

    method WriteAt(offset: nat, data: seq<byte>) returns (r: Result<()>)
      requires Valid()
      modifies this
      ensures Valid()
      ensures r == Check(offset, |data|)
      ensures r.Err? ==> Contents() == old(Contents())
      ensures r.Ok? ==> Contents() == Splice(old(Contents()), offset, data)
    {
      var _ :- Check(offset, |data|);
      CopyIn(offset, data);
      r := Ok(());
    }

    /**
     The `write_zeroes` a device has by default: zeroes written 1 MiB at a time. When a write is
     refused, those before it stay.
     */
    method DefaultWriteZeroes(offset: nat, len: nat) returns (r: Result<()>)
      requires Valid()
      modifies this
      ensures Valid()
      ensures Accepts(offset, len) && (strict ==> ZERO_CHUNK % logical == 0) ==> r.Ok?
      ensures r.Ok? && len > 0 ==> CheckBounds(offset, len, size).Ok?
      ensures r.Ok? && len > 0 ==> Contents() == Splice(old(Contents()), offset, Zeroes(len))
      ensures r.Err? ==> r.error.FromDevice()
      ensures r.Err? ==> Contents() == old(Contents()) || exists done ::
                0 < done < len && offset + done <= size
                && Contents() == Splice(old(Contents()), offset, Zeroes(done))
    {
      var zeroes := Zeroes(Max(Min(ZERO_CHUNK, len), 1));
      var done := 0;
      while done < len
        invariant 0 <= done <= len && Valid() && (done > 0 ==> offset + done <= size)
        invariant Contents() == Zeroed(old(Contents()), offset, done)
        invariant strict ==> done % logical == 0
      {
        var n := Min(len - done, |zeroes|);
        var _ :- ZeroNext(offset, len, done, zeroes[..n], old(Contents()));
        done := done + n;
      }
      r := Ok(());
    }

    /** One write of the default loop. */
    method ZeroNext(offset: nat, len: nat, done: nat, data: seq<byte>, ghost flat: seq<byte>) returns (r: Result<()>)
      requires Valid() && done < len && |flat| == size && (done > 0 ==> offset + done <= size)
      requires data == Zeroes(Min(len - done, Max(Min(ZERO_CHUNK, len), 1)))
      requires Contents() == Zeroed(flat, offset, done) && (strict ==> done % logical == 0)
      modifies this
      ensures Valid()
      ensures Accepts(offset, len) && (strict ==> ZERO_CHUNK % logical == 0) ==> r.Ok?
      ensures r.Ok? ==> offset + done + |data| <= size && offset + done + |data| < TWO_64
      ensures r.Ok? ==> Contents() == Zeroed(flat, offset, done + |data|)
      ensures r.Ok? && strict ==> (done + |data|) % logical == 0
      ensures r.Err? ==> r.error.FromDevice() && Contents() == old(Contents())
    {
      hide Splice, Zeroed, Zeroes, Valid;
      StepAligned(offset, len, done, |data|, logical);
      r := WriteAt(offset + done, data);
      if r.Ok? {
        ZeroesExtend(flat, old(Contents()), Contents(), offset, done, |data|);
        if strict {
          ModAdd(done, |data|, logical);
        }
      }
    }
  }

  lemma DivInRange(offset: nat, end: nat, i: nat)
    requires offset <= i < end
    ensures offset / CHUNK <= i / CHUNK < CeilDiv(end, CHUNK)
  {
  }

  /** The contents once `done` of the zeroes are written. */
  ghost function Zeroed(flat: seq<byte>, offset: nat, done: nat): seq<byte>
    requires done > 0 ==> offset + done <= |flat|
  {
    if done == 0 then flat else Splice(flat, offset, Zeroes(done))
  }

  lemma ZeroesExtend(flat: seq<byte>, before: seq<byte>, after: seq<byte>, offset: nat, done: nat, n: nat)
    requires offset + done + n <= |flat| && n > 0
    requires before == Zeroed(flat, offset, done)
    requires after == Splice(before, offset + done, Zeroes(n))
    ensures after == Zeroed(flat, offset, done + n)
  {
  }

  lemma StepAligned(offset: nat, len: nat, done: nat, n: nat, sector: nat)
    requires sector > 0 && done <= len && n == Min(len - done, Max(Min(ZERO_CHUNK, len), 1)) && n > 0
    ensures offset % sector == 0 && ZERO_CHUNK % sector == 0 && len % sector == 0 && done % sector == 0 ==>
              (offset + done) % sector == 0 && n % sector == 0
  {
    if offset % sector == 0 && ZERO_CHUNK % sector == 0 && len % sector == 0 && done % sector == 0 {
      ModAdd(offset, done, sector);
      ModAdd(len, done, sector);
    }
  }

  lemma WholeChunk(offset: nat, end: nat, idx: nat)
    requires offset / CHUNK <= idx < CeilDiv(end, CHUNK)
    ensures offset < (idx + 1) * CHUNK && idx * CHUNK < end
  {
  }

  // ---------------------------------------------------------------------------------------
  // Whole histories.

  datatype Op = Read(offset: nat, len: nat) | Write(offset: nat, data: seq<byte>) | Zero(offset: nat, len: nat)

  datatype Reply = Done | Data(data: seq<byte>) | Refused(error: Error)

  /** One request on a flat array. */
  function FlatStep(flat: seq<byte>, logical: pos, strict: bool, op: Op): (r: (seq<byte>, Reply))
    ensures |r.0| == |flat|
  {
    var len := if op.Write? then |op.data| else op.len;
    var admitted := Admit(|flat|, logical, strict, op.offset, len);
    if admitted.Err? then (flat, Refused(admitted.error))
    else
      match op
      case Read(o, n) => (flat, Data(flat[o..o + n]))
      case Write(o, data) => (Splice(flat, o, data), Done)
      case Zero(o, n) => (Splice(flat, o, Zeroes(n)), Done)
  }

  function FlatRun(flat: seq<byte>, logical: pos, strict: bool, ops: seq<Op>): (r: (seq<byte>, seq<Reply>))
    ensures |r.0| == |flat|
  {
    if ops == [] then (flat, [])
    else
      var before := FlatRun(flat, logical, strict, ops[..|ops| - 1]);
      var last := FlatStep(before.0, logical, strict, ops[|ops| - 1]);
      (last.0, before.1 + [last.1])
  }

  method Serve(dev: MemDevice, op: Op) returns (reply: Reply)
    requires dev.Valid()
    modifies dev
    ensures dev.Valid()
    ensures (dev.Contents(), reply) == FlatStep(old(dev.Contents()), dev.logical, dev.strict, op)
  {
    match op
    case Read(o, n) =>
      var buf := new byte[n];
      var r := dev.ReadAt(o, buf);
      reply := if r.Ok? then Data(buf[..]) else Refused(r.error);
    case Write(o, data) =>
      var r := dev.WriteAt(o, data);
      reply := if r.Ok? then Done else Refused(r.error);
    case Zero(o, n) =>
      var r := dev.WriteZeroes(o, n);
      reply := if r.Ok? then Done else Refused(r.error);
  }

  /**
   Over every history of reads, writes and zeroings, refused ones included, the sparse device
   answers and ends exactly as a flat array does.
   */
  method Run(dev: MemDevice, ops: seq<Op>) returns (replies: seq<Reply>)
    requires dev.Valid()
    modifies dev
    ensures dev.Valid()
    ensures (dev.Contents(), replies) == FlatRun(old(dev.Contents()), dev.logical, dev.strict, ops)
  {
    replies := [];
    for i := 0 to |ops|
      invariant dev.Valid()
      invariant (dev.Contents(), replies) == FlatRun(old(dev.Contents()), dev.logical, dev.strict, ops[..i])
    {
      var reply := Serve(dev, ops[i]);
      replies := replies + [reply];
      assert ops[..i + 1][..i] == ops[..i];
    }
    assert ops[..|ops|] == ops;
  }
}
