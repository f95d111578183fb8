/** Choosing the size and number of the allocation groups. */
module AgGeometry {
  import opened Prelude
  import opened Geometry

  function Pow2(k: nat): pos {
    if k == 0 then 1 else 2 * Pow2(k - 1)
  }

  /** From `l` up, the first whose power of two is at least `i`. */
  function LogFrom(i: nat, l: nat): (r: nat)
    ensures l <= r && i <= Pow2(r)
    ensures l < r ==> Pow2(r - 1) < i
    decreases i - Pow2(l)
  {
    if i <= Pow2(l) then l else LogFrom(i, l + 1)
  }

  /** The smallest `l` with `2^l >= i`. */
  method Log2Roundup(i: nat) returns (l: nat)
    ensures l == LogFrom(i, 0)
    ensures i <= Pow2(l) && (l > 0 ==> Pow2(l - 1) < i)
  {
    l := 0;
    while Pow2(l) < i
      invariant LogFrom(i, l) == LogFrom(i, 0)
      decreases i - Pow2(l)
    {
      l := l + 1;
    }
  }

  // ---------------------------------------------------------------------------------------
  // Allocation groups.

  /** The block sizes a geometry is computed for; larger ones are refused. */
  predicate Supported(bs: nat) {
    bs in {1024, 2048, 4096, 8192, 16384}
  }

  /** Whole blocks in so many bytes. */
  function Blocks(bytes: nat, bs: pos): nat {
    bytes / bs
  }

  function AgMin(bs: pos): nat {
    Blocks(AG_MIN_BYTES, bs)
  }

  function AgMax(bs: pos): nat {
    Blocks(AG_MAX_BYTES - 1, bs)
  }

  /** How many groups a device is divided into, as a power of two; `None` for maximal groups. */
  function AgLog(bs: pos, dblocks: nat, multidisk: bool): Option<nat> {
    if dblocks >= Blocks(32 * TIB, bs) || (!multidisk && dblocks >= Blocks(4 * TIB, bs)) then None
    else if !multidisk && dblocks >= Blocks(128 * MIB, bs) then Some(2)
    else if dblocks > Blocks(512 * GIB, bs) then Some(5)
    else if dblocks > Blocks(8 * GIB, bs) then Some(4)
    else if dblocks >= Blocks(128 * MIB, bs) then Some(3)
    else if dblocks >= Blocks(64 * MIB, bs) then Some(2)
    else if dblocks >= Blocks(32 * MIB, bs) then Some(1)
    else Some(0)
  }

  function DefaultAgSize(bs: pos, dblocks: nat, multidisk: bool): int {
    match AgLog(bs, dblocks, multidisk)
    case None => AgMax(bs)
    case Some(k) => Min(CeilDiv(dblocks, Pow2(k)), AgMax(bs))
  }

  /** Rounding a quotient up, as the source writes it, covers tightly. */
  lemma CoverIsTight(d: nat, m: pos)
    ensures var n := d / m + if d % m != 0 then 1 else 0;
            n == CeilDiv(d, m) && (n - 1) * m < d <= n * m
  {
    var q, r := d / m, d % m;
    assert d == q * m + r;
    if r == 0 {
      DivModUnique(d + m - 1, m, q, m - 1);
    } else {
      assert (q + 1) * m == q * m + m;
      DivModUnique(d + m - 1, m, q + 1, r - 1);
    }
  }

  /** The sizes the default group count turns on, in blocks. */
  lemma SizesInBlocks(bs: pos)
    requires Supported(bs)
    ensures AgMax(bs) == Blocks(TIB, bs) - 1 && Blocks(TIB, bs) >= 0x400_0000
    ensures Blocks(4 * TIB, bs) == 4 * Blocks(TIB, bs) && Blocks(32 * TIB, bs) == 32 * Blocks(TIB, bs)
    ensures 2 * Blocks(512 * GIB, bs) == Blocks(TIB, bs) && 128 * Blocks(8 * GIB, bs) == Blocks(TIB, bs)
    ensures 8192 * Blocks(128 * MIB, bs) == Blocks(TIB, bs) && 2 * Blocks(64 * MIB, bs) == Blocks(128 * MIB, bs)
    ensures 2 * Blocks(32 * MIB, bs) == Blocks(64 * MIB, bs) && 2 * AgMin(bs) == Blocks(32 * MIB, bs)
  {
    if bs == 1024 {
    } else if bs == 2048 {
    } else if bs == 4096 {
    } else if bs == 8192 {
    }
  }

  lemma Powers()
    ensures Pow2(0) == 1 && Pow2(1) == 2 && Pow2(2) == 4 && Pow2(3) == 8 && Pow2(4) == 16 && Pow2(5) == 32
  {
    assert Pow2(3) == 8;
  }

  lemma DivBelow(d: nat, m: pos, q: nat)
    requires d < m * q
    ensures d / m < q
  {
  }

  lemma BelowShare(bs: pos, dblocks: nat, multidisk: bool)
    requires Supported(bs) && AgLog(bs, dblocks, multidisk).Some?
    ensures dblocks < Pow2(AgLog(bs, dblocks, multidisk).value) * Blocks(TIB, bs)
    ensures AgMax(bs) == Blocks(TIB, bs) - 1
  {
    SizesInBlocks(bs);
    Powers();
    hide Blocks, Pow2;
    var k, share := AgLog(bs, dblocks, multidisk).value, Blocks(TIB, bs);
    if k == 5 {
      assert dblocks < 32 * share;
    } else if k == 4 {
      assert dblocks < 16 * share;
    } else if k == 3 {
      assert dblocks < 8 * share;
    } else if k == 2 {
      assert dblocks < 4 * share;
    } else if k == 1 {
      assert dblocks < 2 * share;
    } else {
      assert dblocks < 1 * share;
    }
  }

  /** Below the sizes that take maximal groups, the quotient is within the largest group. */
  lemma QuotientFits(bs: pos, dblocks: nat, multidisk: bool)
    requires Supported(bs) && AgLog(bs, dblocks, multidisk).Some?
    ensures dblocks / Pow2(AgLog(bs, dblocks, multidisk).value) <= AgMax(bs)
  {
    var k := AgLog(bs, dblocks, multidisk).value;
    BelowShare(bs, dblocks, multidisk);
    hide Blocks, Pow2, AgLog, AgMax;
    DivBelow(dblocks, Pow2(k), Blocks(TIB, bs));
  }

  /** The shift the default group size is worked out with. */
  method DefaultShift(bs: pos, dblocks: nat, multidisk: bool) returns (k: nat)
    requires Supported(bs) && AgLog(bs, dblocks, multidisk).Some?
    ensures AgLog(bs, dblocks, multidisk) == Some(k)
  {
    SizesInBlocks(bs);
    hide Blocks;
    if !multidisk && dblocks >= Blocks(128 * MIB, bs) {
      return 2;
    }
    k := 5;
    if dblocks <= Blocks(512 * GIB, bs) {
      k := k - 1;
    }
    if dblocks <= Blocks(8 * GIB, bs) {
      k := k - 1;
    }
    if dblocks < Blocks(128 * MIB, bs) {
      k := k - 1;
    }
    if dblocks < Blocks(64 * MIB, bs) {
      k := k - 1;
    }
    if dblocks < Blocks(32 * MIB, bs) {
      k := k - 1;
    }
  }

  lemma RoundedWithin(d: nat, m: pos, max: nat)
    requires d / m <= max
    ensures (if d % m != 0 && d / m < max then d / m + 1 else d / m) == Min(CeilDiv(d, m), max)
  {
    CoverIsTight(d, m);
  }

  /** The default group size. */
  method DefaultSize(bs: pos, dblocks: nat, multidisk: bool) returns (agsize: nat)
    requires Supported(bs)
    ensures agsize == DefaultAgSize(bs, dblocks, multidisk)
  {
    hide CeilDiv, Pow2;
    var max := AgMax(bs);
    if dblocks >= Blocks(32 * TIB, bs) || (!multidisk && dblocks >= Blocks(4 * TIB, bs)) {
      return max;
    }
    var k := DefaultShift(bs, dblocks, multidisk);
    QuotientFits(bs, dblocks, multidisk);
    RoundedWithin(dblocks, Pow2(k), max);
    hide Blocks, AgLog, AgMax, Pow2, CeilDiv;
    agsize := dblocks / Pow2(k);
    if dblocks % Pow2(k) != 0 && agsize < max {
      agsize := agsize + 1;
    }
  }

  lemma DefaultSizeInRange(bs: pos, dblocks: nat, multidisk: bool)
    requires Supported(bs) && dblocks > 0
    ensures 0 < DefaultAgSize(bs, dblocks, multidisk) <= AgMax(bs)
  {
    SizesInBlocks(bs);
    hide Blocks, Pow2, AgLog, CeilDiv;
    if AgLog(bs, dblocks, multidisk).Some? {
      CeilPositive(dblocks, Pow2(AgLog(bs, dblocks, multidisk).value));
    }
  }

  lemma CeilPositive(d: nat, m: pos)
    requires d > 0
    ensures CeilDiv(d, m) > 0
  {
    CoverIsTight(d, m);
  }

  /** The default group size and count: a tight cover of the device within the largest group. */
  method DefaultAgGeometry(bs: pos, dblocks: nat, multidisk: bool) returns (agsize: nat, agcount: nat)
    requires Supported(bs) && dblocks > 0
    ensures agsize == DefaultAgSize(bs, dblocks, multidisk)
    ensures 0 < agsize <= AgMax(bs)
    ensures (agcount - 1) * agsize < dblocks <= agcount * agsize
  {
    agsize := DefaultSize(bs, dblocks, multidisk);
    DefaultSizeInRange(bs, dblocks, multidisk);
    CoverIsTight(dblocks, agsize);
    agcount := dblocks / agsize + if dblocks % agsize != 0 then 1 else 0;
  }

  /** The group size and count asked for, or the defaults. */
  function AskedAgs(bs: pos, d0: nat, agsize: Option<nat>, agcount: Option<nat>): (r: Result<(int, int)>) {
    match agsize
    case Some(bytes) =>
      if bytes % bs != 0 || Blocks(bytes, bs) == 0 then Err(InvalidParams)
      else Ok((Blocks(bytes, bs), CeilDiv(d0, Blocks(bytes, bs))))
    case None =>
      match agcount
      case Some(n) => if n == 0 then Err(InvalidParams) else Ok((CeilDiv(d0, n), n))
      case None =>
        var s := DefaultAgSize(bs, d0, false);
        if s <= 0 then Err(InvalidParams) else Ok((s, CeilDiv(d0, s)))
  }

  method ChooseAgs(bs: pos, d0: nat, agsize: Option<nat>, agcount: Option<nat>) returns (r: Result<(int, int)>)
    requires Supported(bs) && d0 > 0
    ensures r == AskedAgs(bs, d0, agsize, agcount)
    ensures r.Ok? ==> r.value.0 > 0 && r.value.1 > 0
    ensures r.Ok? && (agsize.Some? || agcount.None?) ==> r.value.1 == CeilDiv(d0, r.value.0)
  {
    hide DefaultAgSize, Blocks, AgMax, CeilDiv;
    if agsize.Some? {
      if agsize.value % bs != 0 {
        return Err(InvalidParams);
      }
      var s := Blocks(agsize.value, bs);
      if s == 0 {
        return Err(InvalidParams);
      }
      CeilPositive(d0, s);
      return Ok((s, CeilDiv(d0, s)));
    }
    if agcount.Some? {
      if agcount.value == 0 {
        return Err(InvalidParams);
      }
      CeilPositive(d0, agcount.value);
      return Ok((CeilDiv(d0, agcount.value), agcount.value));
    }
    var s, n := DefaultAgGeometry(bs, d0, false);
    TightCountIsCeil(d0, s, n);
    CeilPositive(d0, s);
    r := Ok((s, n));
  }

  /** Data blocks, group size and group count, once a last group too small to be one is dropped. */
  function Trimmed(bs: pos, d0: nat, s: pos, n: pos, counted: bool): Result<(nat, pos, pos)> {
    var short := d0 % s != 0 && d0 % s < AgMin(bs);
    var dblocks, count := if short then d0 - d0 % s else d0, if short then n - 1 else n;
    if short && counted then Err(InvalidParams)
    else if s < AgMin(bs) || s > AgMax(bs) || s > dblocks || count > MAX_AGNUMBER || count < 1 then Err(InvalidParams)
    else Ok((dblocks, s, count))
  }

  method TrimAgs(bs: pos, d0: nat, s: pos, n: pos, counted: bool) returns (r: Result<(nat, pos, pos)>)
    requires Supported(bs) && d0 > 0
    requires counted || n == CeilDiv(d0, s)
    ensures r == Trimmed(bs, d0, s, n, counted)
  {
    hide CeilDiv, AgMin, AgMax, Blocks;
    var dblocks, agcount := d0, n;
    if d0 % s != 0 && d0 % s < AgMin(bs) {
      if counted {
        return Err(InvalidParams);
      }
      DropLast(d0, s);
      dblocks := (agcount - 1) * s;
      agcount := agcount - 1;
    }
    if s < AgMin(bs) {
      return Err(InvalidParams);
    }
    if s > AgMax(bs) {
      return Err(InvalidParams);
    }
    if s > dblocks {
      return Err(InvalidParams);
    }
    if agcount > MAX_AGNUMBER {
      return Err(InvalidParams);
    }
    r := Ok((dblocks, s, agcount));
  }

  lemma TightCountIsCeil(d: nat, m: pos, n: nat)
    requires (n - 1) * m < d <= n * m
    ensures n == CeilDiv(d, m)
  {
    DivModUnique(d + m - 1, m, n, d + m - 1 - n * m);
  }

  /** What is left after dropping a partial last group is the whole groups before it. */
  lemma DropLast(d: nat, m: pos)
    requires d % m != 0
    ensures (CeilDiv(d, m) - 1) * m == d - d % m
    ensures d >= m <==> CeilDiv(d, m) >= 2
  {
    CoverIsTight(d, m);
    assert d == d / m * m + d % m;
    if d >= m && d / m <= 0 {
      assert false;
    }
  }

  /** Groups that cover `d` blocks with no group to spare, the last no smaller than the smallest. */
  predicate Covers(bs: pos, d: nat, s: pos, n: pos) {
    (n - 1) * s < d <= n * s && AgMin(bs) <= d - (n - 1) * s
  }

  /** A count that covers tightly still does so after a short last group is dropped. */
  lemma TrimmedCovers(bs: pos, d0: nat, s: pos, n: pos, counted: bool)
    requires Trimmed(bs, d0, s, n, counted).Ok? && n == CeilDiv(d0, s)
    ensures var (d, s', c) := Trimmed(bs, d0, s, n, counted).value;
            && s' == s && d <= d0 && Covers(bs, d, s, c)
  {
    hide AgMin, AgMax, CeilDiv;
    var c := Trimmed(bs, d0, s, n, counted).value.2;
    CoverIsTight(d0, s);
    assert (c - 1) * s == c * s - s;
    if d0 % s == 0 {
      assert d0 == d0 / s * s;
      assert n == d0 / s;
    } else {
      DropLast(d0, s);
      assert (n - 1) * s == d0 - d0 % s;
    }
  }

  /** An explicit count tiles exactly when the blocks short of whole groups are fewer than a group. */
  lemma CountTiles(d: nat, n: pos)
    requires d > 0
    ensures var s := CeilDiv(d, n);
            && d <= n * s
            && ((n - 1) * s < d <==> d % n == 0 || n - d % n <= d / n)
  {
    CoverIsTight(d, n);
    var q, r := d / n, d % n;
    var s := CeilDiv(d, n);
    assert d == n * q + r;
    assert (n - 1) * s == n * s - s;
    if r == 0 {
      assert s == q && n * s == d;
      assert q > 0;
    } else {
      assert s == q + 1 && n * s == n * q + n;
    }
  }
}
