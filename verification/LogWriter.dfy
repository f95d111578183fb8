/** Writing a log front to back in whole chunks. */
module LogWriter {
  import opened Prelude
  import opened Device

  /** How much is written per device operation. */
  const WRITE_CHUNK: nat := 4 * 1024 * 1024

  /** The device's contents once `data` is written at `start`. */
  ghost function Written(base: seq<byte>, start: nat, data: seq<byte>): (r: seq<byte>)
    requires data != [] ==> start + |data| <= |base|
    ensures |r| == |base|
  {
    if data == [] then base else Splice(base, start, data)
  }

  lemma WrittenExtends(base: seq<byte>, start: nat, data: seq<byte>, more: seq<byte>)
    requires start + |data| + |more| <= |base| && more != []
    ensures Splice(Written(base, start, data), start + |data|, more) == Written(base, start, data + more)
  {
    if data == [] {
      assert data + more == more;
    } else {
      SplicedTwice(base, start, data, more);
    }
  }

  lemma SplicedTwice(base: seq<byte>, start: nat, data: seq<byte>, more: seq<byte>)
    requires start + |data| + |more| <= |base|
    ensures Splice(Splice(base, start, data), start + |data|, more) == Splice(base, start, data + more)
  {
    hide Splice;
    var once, both := Splice(base, start, data), Splice(base, start, data + more);
    forall i | 0 <= i < |base|
      ensures Splice(once, start + |data|, more)[i] == both[i]
    {
    }
  }

  predicate AcceptsPiece(dev: MemDevice, start: nat, at: nat, n: nat) {
    dev.Accepts(start + at, n)
  }

  /** The device takes `total` bytes at `start` in whole chunks and a rest. */
  ghost predicate AcceptsLog(dev: MemDevice, start: nat, total: nat) {
    forall at: nat, n: nat {:trigger AcceptsPiece(dev, start, at, n)} ::
      at % WRITE_CHUNK == 0 && ((n == WRITE_CHUNK && at + n <= total) || at + n == total)
      ==> AcceptsPiece(dev, start, at, n)
  }

  class LogWriter {
    const dev: MemDevice
    const start: nat
    /** Log offset of `buf[0]`. */
    var at: nat
    var buf: seq<byte>
    /** The device before the first write, and everything pushed since. */
    ghost const base: seq<byte>
    /** How much the device is sure to take. */
    ghost const room: Option<nat>
    ghost var pushed: seq<byte>

    ghost predicate Valid()
      reads this, dev
    {
      && InStep() && at % WRITE_CHUNK == 0 && buf == pushed[at..] && |buf| <= WRITE_CHUNK
      && (room.Some? ==> AcceptsLog(dev, start, room.value))
    }

    /** The device holds the first `at` bytes pushed and is otherwise as before: true of every result. */
    ghost predicate InStep()
      reads this, dev
    {
      && dev.Valid() && |base| == dev.size && at <= |pushed|
      && (at > 0 ==> start + at <= dev.size)
      && dev.Contents() == Written(base, start, pushed[..at])
    }

    constructor (dev: MemDevice, start: nat, ghost room: Option<nat>)
      requires dev.Valid() && (room.Some? ==> AcceptsLog(dev, start, room.value))
      ensures Valid() && this.dev == dev && this.start == start && this.room == room
      ensures base == dev.Contents() && pushed == [] && fresh(this)
    {
      this.dev, this.start := dev, start;
      at, buf := 0, [];
      base, pushed, this.room := dev.Contents(), [], room;
    }

    /** Write the first chunk of the buffer. */
    method WriteChunk() returns (r: Result<()>)
      requires InStep() && at % WRITE_CHUNK == 0 && buf == pushed[at..] && |buf| >= WRITE_CHUNK
      requires room.Some? ==> AcceptsLog(dev, start, room.value)
      modifies this, dev
      ensures InStep() && pushed == old(pushed)
      ensures room.Some? && |pushed| <= room.value ==> r.Ok?
      ensures r.Err? ==> r.error.FromDevice() && at == old(at)
      ensures r.Ok? ==> at == old(at) + WRITE_CHUNK && at % WRITE_CHUNK == 0 && buf == pushed[at..]
    {
      hide Admit, Splice;
      assert room.Some? && |pushed| <= room.value ==> AcceptsPiece(dev, start, at, WRITE_CHUNK);
      r := dev.WriteAt(start + at, buf[..WRITE_CHUNK]);
      if r.Ok? {
        WrittenExtends(base, start, pushed[..at], buf[..WRITE_CHUNK]);
        TakeChunk(pushed, at);
        buf := buf[WRITE_CHUNK..];
        at := at + WRITE_CHUNK;
      }
    }

    method Push(data: seq<byte>) returns (r: Result<()>)
      requires Valid()
      modifies this, dev
      ensures InStep() && pushed == old(pushed) + data
      ensures room.Some? && |pushed| <= room.value ==> r.Ok?
      ensures r.Ok? ==> Valid()
      ensures r.Err? ==> r.error.FromDevice()
    {
      assert (pushed + data)[..at] == pushed[..at] && (pushed + data)[at..] == buf + data;
      buf, pushed := buf + data, pushed + data;
      while |buf| >= WRITE_CHUNK
        invariant InStep() && pushed == old(pushed) + data
        invariant at % WRITE_CHUNK == 0 && buf == pushed[at..]
      {
        var _ :- WriteChunk();
      }
      r := Ok(());
    }

    method ZeroesTo(end: nat) returns (r: Result<()>)
      requires Valid()
      modifies this, dev
      ensures InStep() && |pushed| <= Max(end, |old(pushed)|)
      ensures r.Ok? ==> Valid() && pushed == old(pushed) + Zeroes(Max(end - |old(pushed)|, 0))
      ensures room.Some? && Max(end, |old(pushed)|) <= room.value ==> r.Ok?
      ensures r.Err? ==> r.error.FromDevice()
    {
      while at + |buf| < end
        invariant Valid() && old(pushed) <= pushed && |pushed| <= Max(end, |old(pushed)|)
        invariant forall i :: |old(pushed)| <= i < |pushed| ==> pushed[i] == 0
        decreases end - |pushed|
      {
        var n := Min(end - at - |buf|, WRITE_CHUNK);
        var _ :- Push(Zeroes(n));
      }
      r := Ok(());
    }

    method PadToBlock(blocksize: nat)
      requires Valid() && blocksize > 0 && WRITE_CHUNK % blocksize == 0
      modifies this
      ensures Valid() && at == old(at) && |buf| % blocksize == 0
      ensures |old(buf)| <= |buf| == CeilDiv(|old(buf)|, blocksize) * blocksize < |old(buf)| + blocksize
      ensures pushed == old(pushed) + Zeroes(|buf| - |old(buf)|)
    {
      PadLength(|buf|, blocksize);
      var n := CeilDiv(|buf|, blocksize) * blocksize - |buf|;
      assert (pushed + Zeroes(n))[..at] == pushed[..at] && (pushed + Zeroes(n))[at..] == buf + Zeroes(n);
      buf, pushed := buf + Zeroes(n), pushed + Zeroes(n);
    }

    method Finish() returns (r: Result<()>)
      requires Valid()
      modifies dev
      ensures dev.Valid() && SameBut(base, dev.Contents(), start, |pushed|)
      ensures r.Ok? && pushed != [] ==> start + |pushed| <= dev.size
      ensures r.Ok? ==> dev.Contents() == Written(base, start, pushed)
      ensures room == Some(|pushed|) ==> r.Ok?
      ensures r.Err? ==> r.error.FromDevice()
    {
      hide Splice, SameBut, Written;
      assert room == Some(|pushed|) ==> AcceptsPiece(dev, start, at, |buf|);
      assert pushed[..at] + buf == pushed;
      WrittenIsWithin(base, start, pushed[..at], |pushed|);
      if buf != [] {
        var _ :- dev.WriteAt(start + at, buf);
        WrittenExtends(base, start, pushed[..at], buf);
        WrittenIsWithin(base, start, pushed, |pushed|);
      } else {
        assert pushed[..at] == pushed;
      }
      r := Ok(());
    }
  }

  lemma WrittenIsWithin(base: seq<byte>, start: nat, data: seq<byte>, len: nat)
    requires (data != [] ==> start + |data| <= |base|) && |data| <= len
    ensures SameBut(base, Written(base, start, data), start, len)
  {
  }

  lemma TakeChunk(pushed: seq<byte>, at: nat)
    requires at + WRITE_CHUNK <= |pushed|
    ensures pushed[..at] + pushed[at..][..WRITE_CHUNK] == pushed[..at + WRITE_CHUNK]
    ensures pushed[at..][WRITE_CHUNK..] == pushed[at + WRITE_CHUNK..]
    ensures (at + WRITE_CHUNK) % WRITE_CHUNK == at % WRITE_CHUNK
  {
  }

  /** Rounding up to a block stays within the chunk. */
  lemma PadLength(n: nat, blocksize: nat)
    requires blocksize > 0
    ensures n <= CeilDiv(n, blocksize) * blocksize < n + blocksize
    ensures CeilDiv(n, blocksize) * blocksize % blocksize == 0
    ensures n <= WRITE_CHUNK && WRITE_CHUNK % blocksize == 0 ==> CeilDiv(n, blocksize) * blocksize <= WRITE_CHUNK
  {
    var q := CeilDiv(n, blocksize);
    MulMod(q, blocksize);
    if n <= WRITE_CHUNK && WRITE_CHUNK % blocksize == 0 {
      var k := WRITE_CHUNK / blocksize;
      if q > k {
        MulAtLeast(q - k, blocksize);
      }
    }
  }
}
