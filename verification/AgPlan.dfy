/** The end state of one allocation group: free space, free list, reverse map, root inode chunk. */
module AgPlan {
  import opened Prelude
  import opened Geometry

  datatype AllocRec = AllocRec(start: nat, count: nat) {
    predicate Has(b: nat) {
      start <= b < start + count
    }
  }

  /** The special owners of the reverse map. */
  datatype Owner = FS | LOG | AG | INOBT | INODES | REFC

  datatype RmapRec = RmapRec(start: nat, count: nat, owner: Owner) {
    predicate Has(b: nat) {
      start <= b < start + count
    }
  }

  // ---------------------------------------------------------------------------------------
  // Free extents.

  predicate IsFree(free: seq<AllocRec>, b: nat) {
    free != [] && (free[0].Has(b) || IsFree(free[1..], b))
  }

  function Total(free: seq<AllocRec>): nat {
    if free == [] then 0 else free[0].count + Total(free[1..])
  }

  /** By block, none empty, none touching another. */
  predicate SortedFree(free: seq<AllocRec>) {
    && (forall i :: 0 <= i < |free| ==> free[i].count > 0)
    && (forall i, j :: 0 <= i < j < |free| ==> free[i].start + free[i].count < free[j].start)
  }

  lemma {:induction false} FreeConcat(a: seq<AllocRec>, c: seq<AllocRec>, b: nat)
    ensures IsFree(a + c, b) <==> IsFree(a, b) || IsFree(c, b)
  {
    if a == [] {
      assert a + c == c;
    } else {
      assert (a + c)[1..] == a[1..] + c;
      FreeConcat(a[1..], c, b);
    }
  }

  lemma {:induction false} TotalConcat(a: seq<AllocRec>, c: seq<AllocRec>)
    ensures Total(a + c) == Total(a) + Total(c)
  {
    if a == [] {
      assert a + c == c;
    } else {
      assert (a + c)[1..] == a[1..] + c;
      TotalConcat(a[1..], c);
    }
  }

  lemma {:induction false} FreeHasIndex(free: seq<AllocRec>, b: nat) returns (i: nat)
    requires IsFree(free, b)
    ensures i < |free| && free[i].Has(b)
  {
    if free[0].Has(b) {
      i := 0;
    } else {
      var j := FreeHasIndex(free[1..], b);
      i := j + 1;
    }
  }

  lemma {:induction false} IndexIsFree(free: seq<AllocRec>, i: nat, b: nat)
    requires i < |free| && free[i].Has(b)
    ensures IsFree(free, b)
  {
    if i > 0 {
      IndexIsFree(free[1..], i - 1, b);
    }
  }

  /** What taking `[start, start + len)` out of extent `r` leaves of it. */
  function Remnants(r: AllocRec, start: nat, len: nat): seq<AllocRec>
    requires r.start <= start && start + len <= r.start + r.count
  {
    (if start > r.start then [AllocRec(r.start, start - r.start)] else [])
    + if start + len < r.start + r.count then [AllocRec(start + len, r.start + r.count - start - len)] else []
  }

  lemma OneExtent(r: AllocRec, b: nat)
    ensures IsFree([r], b) <==> r.Has(b)
    ensures Total([r]) == r.count
  {
    assert [r][1..] == [];
  }

  lemma RemnantsLeft(r: AllocRec, start: nat, len: nat, b: nat)
    requires r.start <= start && start + len <= r.start + r.count
    ensures Total(Remnants(r, start, len)) == r.count - len
    ensures IsFree(Remnants(r, start, len), b) <==> r.Has(b) && !(start <= b < start + len)
  {
    var left := if start > r.start then [AllocRec(r.start, start - r.start)] else [];
    var right :=
      if start + len < r.start + r.count then [AllocRec(start + len, r.start + r.count - start - len)] else [];
    assert Remnants(r, start, len) == left + right;
    TotalConcat(left, right);
    FreeConcat(left, right, b);
    OneExtent(AllocRec(r.start, start - r.start), b);
    OneExtent(AllocRec(start + len, r.start + r.count - start - len), b);
  }

  /** In a sorted list, blocks before and after extent `i` are outside it. */
  lemma FreeApart(free: seq<AllocRec>, i: nat, b: nat)
    requires SortedFree(free) && i < |free|
    ensures IsFree(free[..i], b) ==> b < free[i].start
    ensures IsFree(free[i + 1..], b) ==> b > free[i].start + free[i].count
  {
    if IsFree(free[..i], b) {
      var j := FreeHasIndex(free[..i], b);
      assert free[j].Has(b);
    }
    if IsFree(free[i + 1..], b) {
      var j := FreeHasIndex(free[i + 1..], b);
      assert free[i + 1 + j].Has(b);
    }
  }

  lemma TakeKeepsSorted(free: seq<AllocRec>, i: nat, start: nat, len: nat)
    requires SortedFree(free) && i < |free| && len > 0
    requires free[i].start <= start && start + len <= free[i].start + free[i].count
    ensures SortedFree(free[..i] + Remnants(free[i], start, len) + free[i + 1..])
  {
  }

  lemma TakeLeaves(free: seq<AllocRec>, i: nat, start: nat, len: nat, b: nat)
    requires SortedFree(free) && i < |free| && len > 0
    requires free[i].start <= start && start + len <= free[i].start + free[i].count
    ensures var after := free[..i] + Remnants(free[i], start, len) + free[i + 1..];
            && Total(after) == Total(free) - len
            && (IsFree(after, b) <==> IsFree(free, b) && !(start <= b < start + len))
  {
    var pre, r, post := free[..i], free[i], free[i + 1..];
    var mid := Remnants(r, start, len);
    assert free == pre + ([r] + post) && pre + mid + post == pre + (mid + post);
    RemnantsLeft(r, start, len, b);
    OneExtent(r, b);
    TotalConcat(pre, [r] + post);
    TotalConcat([r], post);
    TotalConcat(pre, mid + post);
    TotalConcat(mid, post);
    FreeConcat(pre, [r] + post, b);
    FreeConcat([r], post, b);
    FreeConcat(pre, mid + post, b);
    FreeConcat(mid, post, b);
    FreeApart(free, i, b);
  }

  /** Extent `i` of the sorted list replaced by what is left of it. */
  lemma TakeAt(free: seq<AllocRec>, i: nat, start: nat, len: nat, after: seq<AllocRec>)
    requires SortedFree(free) && i < |free| && len > 0
    requires free[i].start <= start && start + len <= free[i].start + free[i].count
    requires after == free[..i] + Remnants(free[i], start, len) + free[i + 1..]
    ensures SortedFree(after) && Total(after) == Total(free) - len
    ensures forall b: nat :: IsFree(after, b) <==> IsFree(free, b) && !(start <= b < start + len)
  {
    hide Remnants, IsFree, Total;
    TakeKeepsSorted(free, i, start, len);
    TakeLeaves(free, i, start, len, 0);
    forall b: nat
      ensures IsFree(after, b) <==> IsFree(free, b) && !(start <= b < start + len)
    {
      TakeLeaves(free, i, start, len, b);
    }
  }

  // ---------------------------------------------------------------------------------------
  // Reverse map.

  /** The owner of block `b`, if it has one. */
  function OwnerAt(rmap: seq<RmapRec>, b: nat): Option<Owner> {
    if rmap == [] then None
    else if rmap[0].Has(b) then Some(rmap[0].owner)
    else OwnerAt(rmap[1..], b)
  }

  predicate NoneEmpty(rmap: seq<RmapRec>) {
    forall i :: 0 <= i < |rmap| ==> rmap[i].count > 0
  }

  predicate NoneOverlap(rmap: seq<RmapRec>) {
    forall i, j :: 0 <= i < j < |rmap| ==> rmap[i].start + rmap[i].count <= rmap[j].start
  }

  /** Neighbours that touch have different owners. */
  predicate Merged(rmap: seq<RmapRec>) {
    forall i :: 0 <= i < |rmap| - 1 ==>
      rmap[i].start + rmap[i].count == rmap[i + 1].start ==> rmap[i].owner != rmap[i + 1].owner
  }

  /** By block, none empty, none overlapping, and maximally merged. */
  predicate SortedRmap(rmap: seq<RmapRec>) {
    NoneEmpty(rmap) && NoneOverlap(rmap) && Merged(rmap)
  }

  lemma {:induction false} OwnerConcat(a: seq<RmapRec>, c: seq<RmapRec>, b: nat)
    ensures OwnerAt(a + c, b) == if OwnerAt(a, b).Some? then OwnerAt(a, b) else OwnerAt(c, b)
  {
    if a == [] {
      assert a + c == c;
    } else {
      assert (a + c)[1..] == a[1..] + c;
      OwnerConcat(a[1..], c, b);
    }
  }

  lemma {:induction false} OwnedHasIndex(rmap: seq<RmapRec>, b: nat) returns (i: nat)
    requires OwnerAt(rmap, b).Some?
    ensures i < |rmap| && rmap[i].Has(b) && OwnerAt(rmap, b) == Some(rmap[i].owner)
  {
    if rmap[0].Has(b) {
      i := 0;
    } else {
      var j := OwnedHasIndex(rmap[1..], b);
      i := j + 1;
    }
  }

  /** The first record that starts at or after `start`. */
  function PartitionPoint(rmap: seq<RmapRec>, start: nat): (pos: nat)
    ensures pos <= |rmap|
    ensures forall i :: 0 <= i < pos ==> rmap[i].start < start
    ensures pos < |rmap| ==> rmap[pos].start >= start
  {
    if rmap == [] || rmap[0].start >= start then 0 else 1 + PartitionPoint(rmap[1..], start)
  }

  lemma {:induction false} IndexOwned(rmap: seq<RmapRec>, i: nat, b: nat)
    requires i < |rmap| && rmap[i].Has(b)
    ensures OwnerAt(rmap, b).Some?
  {
    if i > 0 {
      IndexOwned(rmap[1..], i - 1, b);
    }
  }

  ghost predicate Unowned(rmap: seq<RmapRec>, rec: RmapRec) {
    forall b: nat :: rec.Has(b) ==> OwnerAt(rmap, b).None?
  }

  predicate JoinsLeft(rmap: seq<RmapRec>, pos: nat, rec: RmapRec)
    requires pos <= |rmap|
  {
    pos > 0 && rmap[pos - 1].owner == rec.owner && rmap[pos - 1].start + rmap[pos - 1].count == rec.start
  }

  predicate JoinsRight(rmap: seq<RmapRec>, pos: nat, rec: RmapRec)
    requires pos <= |rmap|
  {
    pos < |rmap| && rmap[pos].owner == rec.owner && rec.start + rec.count == rmap[pos].start
  }

  /** `rec` joined to the neighbours it touches. */
  function Joined(rmap: seq<RmapRec>, pos: nat, rec: RmapRec): RmapRec
    requires pos <= |rmap|
  {
    var start := if JoinsLeft(rmap, pos, rec) then rmap[pos - 1].start else rec.start;
    var end := if JoinsRight(rmap, pos, rec) then rmap[pos].start + rmap[pos].count else rec.start + rec.count;
    RmapRec(start, if start <= end then end - start else 0, rec.owner)
  }

  /** The map with `rec`, joined to what it touches, in its place. */
  function Inserted(rmap: seq<RmapRec>, rec: RmapRec): seq<RmapRec> {
    rmap[..Lo(rmap, rec)] + [Joined(rmap, PartitionPoint(rmap, rec.start), rec)] + rmap[Hi(rmap, rec)..]
  }

  /** A record over unowned blocks fits between its neighbours. */
  lemma FitsBetween(rmap: seq<RmapRec>, rec: RmapRec)
    requires SortedRmap(rmap) && rec.count > 0 && Unowned(rmap, rec)
    ensures var pos := PartitionPoint(rmap, rec.start);
            && (forall i :: 0 <= i < pos ==> rmap[i].start + rmap[i].count <= rec.start)
            && (forall i :: pos <= i < |rmap| ==> rec.start + rec.count <= rmap[i].start)
  {
    var pos := PartitionPoint(rmap, rec.start);
    forall i | 0 <= i < |rmap|
      ensures i < pos ==> rmap[i].start + rmap[i].count <= rec.start
      ensures pos <= i ==> rec.start + rec.count <= rmap[i].start
    {
      if i < pos && rec.start < rmap[i].start + rmap[i].count {
        IndexOwned(rmap, i, rec.start);
      }
      if pos <= i && rmap[i].start < rec.start + rec.count {
        assert rmap[i].start >= rec.start;
        IndexOwned(rmap, i, rmap[i].start);
      }
    }
  }

  /** `c` can follow `a` in a sorted map. */
  predicate Follows(a: seq<RmapRec>, c: seq<RmapRec>) {
    a != [] && c != [] ==>
      var l, r := a[|a| - 1], c[0];
      l.start + l.count < r.start || (l.start + l.count == r.start && l.owner != r.owner)
  }

  lemma NoneOverlapConcat(a: seq<RmapRec>, c: seq<RmapRec>)
    requires NoneOverlap(a) && NoneOverlap(c) && Follows(a, c)
    ensures NoneOverlap(a + c)
  {
    var all := a + c;
    forall i, j | 0 <= i < j < |all|
      ensures all[i].start + all[i].count <= all[j].start
    {
      if j < |a| {
        assert all[i] == a[i] && all[j] == a[j];
      } else if |a| <= i {
        assert all[i] == c[i - |a|] && all[j] == c[j - |a|];
      } else {
        LastReaches(a, i);
        FirstStarts(c, j - |a|);
      }
    }
  }

  lemma LastReaches(a: seq<RmapRec>, i: nat)
    requires NoneOverlap(a) && i < |a|
    ensures a[i].start + a[i].count <= a[|a| - 1].start + a[|a| - 1].count
  {
  }

  lemma FirstStarts(c: seq<RmapRec>, j: nat)
    requires NoneOverlap(c) && j < |c|
    ensures c[0].start <= c[j].start
  {
  }

  lemma MergedConcat(a: seq<RmapRec>, c: seq<RmapRec>)
    requires Merged(a) && Merged(c) && Follows(a, c)
    ensures Merged(a + c)
  {
  }

  lemma SortedConcat(a: seq<RmapRec>, c: seq<RmapRec>)
    requires SortedRmap(a) && SortedRmap(c) && Follows(a, c)
    ensures SortedRmap(a + c)
  {
    NoneOverlapConcat(a, c);
    MergedConcat(a, c);
    hide NoneOverlap, Merged, Follows;
  }

  lemma SortedSlice(rmap: seq<RmapRec>, lo: nat, hi: nat)
    requires SortedRmap(rmap) && lo <= hi <= |rmap|
    ensures SortedRmap(rmap[lo..hi])
  {
  }

  /** Records `lo..hi` replaced by one that follows what is before and is followed by what is after. */
  lemma ReplacedSorted(rmap: seq<RmapRec>, lo: nat, hi: nat, x: RmapRec)
    requires SortedRmap(rmap) && lo <= hi <= |rmap| && x.count > 0
    requires Follows(rmap[..lo], [x]) && Follows([x], rmap[hi..])
    ensures SortedRmap(rmap[..lo] + [x] + rmap[hi..])
  {
    SortedSlice(rmap, 0, lo);
    SortedSlice(rmap, hi, |rmap|);
    SortedConcat(rmap[..lo], [x]);
    SortedConcat(rmap[..lo] + [x], rmap[hi..]);
  }

  /** The bounds `Inserted` splices at. */
  function Lo(rmap: seq<RmapRec>, rec: RmapRec): nat {
    var pos := PartitionPoint(rmap, rec.start);
    if JoinsLeft(rmap, pos, rec) then pos - 1 else pos
  }

  function Hi(rmap: seq<RmapRec>, rec: RmapRec): (hi: nat)
    ensures Lo(rmap, rec) <= hi <= |rmap|
  {
    var pos := PartitionPoint(rmap, rec.start);
    if JoinsRight(rmap, pos, rec) then pos + 1 else pos
  }

  /** The joined record covers `rec` and exactly the records it replaces, all of its owner. */
  lemma JoinedCovers(rmap: seq<RmapRec>, rec: RmapRec, b: nat)
    requires SortedRmap(rmap) && rec.count > 0 && Unowned(rmap, rec)
    ensures var x := Joined(rmap, PartitionPoint(rmap, rec.start), rec);
            var mid := rmap[Lo(rmap, rec)..Hi(rmap, rec)];
            && x.owner == rec.owner && x.count > 0
            && (x.Has(b) <==> rec.Has(b) || OwnerAt(mid, b).Some?)
            && (OwnerAt(mid, b).Some? ==> OwnerAt(mid, b).value == rec.owner && !rec.Has(b))
  {
    FitsBetween(rmap, rec);
    var pos := PartitionPoint(rmap, rec.start);
    var mid := rmap[Lo(rmap, rec)..Hi(rmap, rec)];
    if JoinsLeft(rmap, pos, rec) {
      OneOwner(rmap[pos - 1], b);
      if JoinsRight(rmap, pos, rec) {
        OneOwner(rmap[pos], b);
        assert mid == [rmap[pos - 1]] + [rmap[pos]];
        OwnerConcat([rmap[pos - 1]], [rmap[pos]], b);
      } else {
        assert mid == [rmap[pos - 1]];
      }
    } else if JoinsRight(rmap, pos, rec) {
      OneOwner(rmap[pos], b);
      assert mid == [rmap[pos]];
    } else {
      assert mid == [];
    }
  }

  lemma OneOwner(r: RmapRec, b: nat)
    ensures OwnerAt([r], b) == if r.Has(b) then Some(r.owner) else None
  {
    assert [r][1..] == [];
  }

  lemma InsertedSorted(rmap: seq<RmapRec>, rec: RmapRec)
    requires SortedRmap(rmap) && rec.count > 0 && Unowned(rmap, rec)
    ensures SortedRmap(Inserted(rmap, rec))
  {
    FitsBetween(rmap, rec);
    var pos := PartitionPoint(rmap, rec.start);
    ReplacedSorted(rmap, Lo(rmap, rec), Hi(rmap, rec), Joined(rmap, pos, rec));
  }

  /** Inserting gives the record's blocks its owner and leaves every other block's as it was. */
  lemma InsertedOwners(rmap: seq<RmapRec>, rec: RmapRec, b: nat)
    requires SortedRmap(rmap) && rec.count > 0 && Unowned(rmap, rec)
    ensures OwnerAt(Inserted(rmap, rec), b) == if rec.Has(b) then Some(rec.owner) else OwnerAt(rmap, b)
  {
    hide SortedRmap, PartitionPoint, Joined, Lo, Hi, OwnerAt;
    var lo, hi, joined := Lo(rmap, rec), Hi(rmap, rec), Joined(rmap, PartitionPoint(rmap, rec.start), rec);
    JoinedCovers(rmap, rec, b);
    InsertedApart(rmap, rec, b);
    OwnerReplaced(rmap, lo, hi, joined, b);
  }

  function FirstOwner(a: Option<Owner>, c: Option<Owner>): Option<Owner> {
    if a.Some? then a else c
  }

  lemma OwnerReplaced(rmap: seq<RmapRec>, lo: nat, hi: nat, x: RmapRec, b: nat)
    requires lo <= hi <= |rmap|
    ensures var pre, mid, post := OwnerAt(rmap[..lo], b), OwnerAt(rmap[lo..hi], b), OwnerAt(rmap[hi..], b);
            && OwnerAt(rmap, b) == FirstOwner(pre, FirstOwner(mid, post))
            && OwnerAt(rmap[..lo] + [x] + rmap[hi..], b) ==
               FirstOwner(pre, FirstOwner(if x.Has(b) then Some(x.owner) else None, post))
  {
    var pre, mid, post := rmap[..lo], rmap[lo..hi], rmap[hi..];
    assert rmap == pre + mid + post;
    OwnerConcat(pre + mid, post, b);
    OwnerConcat(pre, mid, b);
    OwnerConcat(pre + [x], post, b);
    OwnerConcat(pre, [x], b);
    OneOwner(x, b);
  }

  lemma UpdateIsSplice<T>(s: seq<T>, i: nat, x: T)
    requires i < |s|
    ensures s[i := x] == s[..i] + [x] + s[i + 1..]
  {
  }

  lemma UpdateThenCut<T>(s: seq<T>, i: nat, x: T)
    requires i + 1 < |s|
    ensures s[i := x][..i + 1] + s[i := x][i + 2..] == s[..i] + [x] + s[i + 2..]
  {
  }

  /** What joining comes to, by the neighbours joined. */
  lemma JoinedIs(rmap: seq<RmapRec>, pos: nat, rec: RmapRec)
    requires pos <= |rmap| && rec.count > 0
    ensures JoinsLeft(rmap, pos, rec) && JoinsRight(rmap, pos, rec) ==>
              Joined(rmap, pos, rec) ==
              RmapRec(rmap[pos - 1].start, rmap[pos - 1].count + (rec.count + rmap[pos].count), rmap[pos - 1].owner)
    ensures JoinsLeft(rmap, pos, rec) && !JoinsRight(rmap, pos, rec) ==>
              Joined(rmap, pos, rec) ==
              RmapRec(rmap[pos - 1].start, rmap[pos - 1].count + rec.count, rmap[pos - 1].owner)
    ensures !JoinsLeft(rmap, pos, rec) && JoinsRight(rmap, pos, rec) ==>
              Joined(rmap, pos, rec) == RmapRec(rec.start, rmap[pos].count + rec.count, rmap[pos].owner)
    ensures !JoinsLeft(rmap, pos, rec) && !JoinsRight(rmap, pos, rec) ==> Joined(rmap, pos, rec) == rec
  {
  }

  /** Blocks of the records kept are outside the joined one. */
  lemma InsertedApart(rmap: seq<RmapRec>, rec: RmapRec, b: nat)
    requires SortedRmap(rmap) && rec.count > 0 && Unowned(rmap, rec)
    ensures var x := Joined(rmap, PartitionPoint(rmap, rec.start), rec);
            && (OwnerAt(rmap[..Lo(rmap, rec)], b).Some? ==> b < x.start)
            && (OwnerAt(rmap[Hi(rmap, rec)..], b).Some? ==> b >= x.start + x.count)
  {
    FitsBetween(rmap, rec);
    hide Unowned, PartitionPoint, Merged;
    var lo, hi := Lo(rmap, rec), Hi(rmap, rec);
    if OwnerAt(rmap[..lo], b).Some? {
      var j := OwnedHasIndex(rmap[..lo], b);
      assert rmap[j].Has(b);
    }
    if OwnerAt(rmap[hi..], b).Some? {
      var j := OwnedHasIndex(rmap[hi..], b);
      assert rmap[hi + j].Has(b);
    }
  }

  // ---------------------------------------------------------------------------------------
  // The layout of a group before anything is allocated.

  predicate InLog(g: Geometry, agno: nat, b: nat) {
    agno == g.logagno && g.logAgbno <= b < g.logAgbno + g.logblocks
  }

  predicate InitiallyFree(g: Geometry, agno: nat, b: nat) {
    g.PreallocBlocks() <= b < g.AgBlocks(agno) && !InLog(g, agno, b)
  }

  /** What the headers and btree roots, and the log, are owned by. */
  function StaticOwner(g: Geometry, agno: nat, b: nat): Option<Owner> {
    if b < g.BnoBlock() then Some(FS)
    else if b < g.IbtBlock() then Some(AG)
    else if b < g.RmapBlock() then Some(INOBT)
    else if b == g.RmapBlock() then Some(AG)
    else if g.features.reflink && b == g.RefcBlock() then Some(REFC)
    else if InLog(g, agno, b) then Some(LOG)
    else None
  }

  function InitialFree(g: Geometry, agno: nat): seq<AllocRec> {
    var p, length := g.PreallocBlocks(), g.AgBlocks(agno);
    if agno == g.logagno then
      var (ls, le) := (g.logAgbno, g.logAgbno + g.logblocks);
      (if ls > p then [AllocRec(p, ls - p)] else []) + if le < length then [AllocRec(le, length - le)] else []
    else if p < length then [AllocRec(p, length - p)] else []
  }

  function RootRecs(g: Geometry): seq<RmapRec> {
    [RmapRec(0, g.BnoBlock(), FS), RmapRec(g.BnoBlock(), 2, AG),
     RmapRec(g.IbtBlock(), g.RmapBlock() - g.IbtBlock(), INOBT), RmapRec(g.RmapBlock(), 1, AG)]
  }

  function RefcRecs(g: Geometry): seq<RmapRec> {
    if g.features.reflink then [RmapRec(g.RefcBlock(), 1, REFC)] else []
  }

  function LogRecs(g: Geometry, agno: nat): seq<RmapRec> {
    if agno == g.logagno then [RmapRec(g.logAgbno, g.logblocks, LOG)] else []
  }

  function InitialRmap(g: Geometry, agno: nat): seq<RmapRec> {
    if g.features.rmapbt then RootRecs(g) + RefcRecs(g) + LogRecs(g, agno) else []
  }

  /**
   A group of a laid-out geometry: the log, where it is, starts at the end of the preallocated
   blocks or later, and in that case inside the group.
   */
  predicate LaidOut(g: Geometry, agno: nat) {
    && g.HeaderBlocks() > 0 && g.logblocks > 0 && 0 <= g.AgBlocks(agno) < TWO_32
    && (agno != g.logagno ==> g.PreallocBlocks() <= g.AgBlocks(agno))
    && (agno == g.logagno ==>
          || g.logAgbno == g.PreallocBlocks()
          || (g.PreallocBlocks() < g.logAgbno && g.logAgbno + g.logblocks <= g.AgBlocks(agno)))
  }

  lemma InitialFreeIs(g: Geometry, agno: nat, b: nat)
    requires LaidOut(g, agno)
    ensures SortedFree(InitialFree(g, agno))
    ensures IsFree(InitialFree(g, agno), b) <==> InitiallyFree(g, agno, b)
    ensures agno == g.logagno && InitialFree(g, agno) != [] ==> g.logAgbno + g.logblocks <= g.AgBlocks(agno)
    ensures agno == g.logagno && InitialFree(g, agno) != [] ==>
              Total(InitialFree(g, agno)) == g.AgBlocks(agno) - g.PreallocBlocks() - g.logblocks
    ensures agno != g.logagno ==> Total(InitialFree(g, agno)) == g.AgBlocks(agno) - g.PreallocBlocks()
  {
    var p, length := g.PreallocBlocks(), g.AgBlocks(agno);
    Positions(g);
    if agno == g.logagno {
      var ls, le := g.logAgbno, g.logAgbno + g.logblocks;
      var before := if ls > p then [AllocRec(p, ls - p)] else [];
      var after := if le < length then [AllocRec(le, length - le)] else [];
      FreeConcat(before, after, b);
      TotalConcat(before, after);
      if ls > p {
        OneExtent(AllocRec(p, ls - p), b);
      }
      if le < length {
        OneExtent(AllocRec(le, length - le), b);
      }
    } else if p < length {
      OneExtent(AllocRec(p, length - p), b);
    }
  }

  lemma RootsSorted(g: Geometry)
    requires g.HeaderBlocks() > 0
    ensures SortedRmap(RootRecs(g))
  {
  }

  lemma RootsAndRefcSorted(g: Geometry)
    requires g.HeaderBlocks() > 0 && g.features.rmapbt
    ensures SortedRmap(RootRecs(g) + RefcRecs(g))
  {
    RootsSorted(g);
    FewSorted(RmapRec(g.RefcBlock(), 1, REFC));
    SortedConcat(RootRecs(g), RefcRecs(g));
  }

  lemma InitialRmapSorted(g: Geometry, agno: nat)
    requires LaidOut(g, agno)
    ensures SortedRmap(InitialRmap(g, agno))
  {
    if g.features.rmapbt {
      RootsAndRefcSorted(g);
      hide SortedRmap;
      FewSorted(RmapRec(g.logAgbno, g.logblocks, LOG));
      SortedConcat(RootRecs(g) + RefcRecs(g), LogRecs(g, agno));
    } else {
      FewSorted(RmapRec(0, 1, LOG));
    }
  }

  lemma FewSorted(r: RmapRec)
    requires r.count > 0
    ensures SortedRmap([]) && SortedRmap([r])
  {
  }

  /** The owner by the record that has the block, in a list of five records and the log's. */
  lemma FourOwners(a: RmapRec, c: RmapRec, d: RmapRec, e: RmapRec, b: nat)
    ensures OwnerAt([a, c, d, e], b) ==
            if a.Has(b) then Some(a.owner)
            else if c.Has(b) then Some(c.owner)
            else if d.Has(b) then Some(d.owner)
            else if e.Has(b) then Some(e.owner)
            else None
  {
    assert [a, c, d, e] == [a] + ([c] + ([d] + [e]));
    OwnerConcat([a], [c] + ([d] + [e]), b);
    OwnerConcat([c], [d] + [e], b);
    OwnerConcat([d], [e], b);
    OneOwner(a, b);
    OneOwner(c, b);
    OneOwner(d, b);
    OneOwner(e, b);
  }

  lemma InitialRmapIs(g: Geometry, agno: nat, b: nat)
    requires LaidOut(g, agno) && g.features.rmapbt
    ensures OwnerAt(InitialRmap(g, agno), b) == StaticOwner(g, agno, b)
  {
    hide OwnerAt;
    var r0, r1 := RmapRec(0, g.BnoBlock(), FS), RmapRec(g.BnoBlock(), 2, AG);
    var r2, r3 := RmapRec(g.IbtBlock(), g.RmapBlock() - g.IbtBlock(), INOBT), RmapRec(g.RmapBlock(), 1, AG);
    var r4, r5 := RmapRec(g.RefcBlock(), 1, REFC), RmapRec(g.logAgbno, g.logblocks, LOG);
    FourOwners(r0, r1, r2, r3, b);
    OneOwner(r4, b);
    OneOwner(r5, b);
    NoOwner(b);
    OwnerConcat(RootRecs(g) + RefcRecs(g), LogRecs(g, agno), b);
    OwnerConcat(RootRecs(g), RefcRecs(g), b);
  }

  lemma NoOwner(b: nat)
    ensures OwnerAt([], b) == None
  {
  }

  // ---------------------------------------------------------------------------------------
  // Planning.

  predicate InChunk(g: Geometry, chunk: Option<nat>, b: nat) {
    chunk.Some? && chunk.value <= b < chunk.value + g.ChunkBlocks()
  }

  /** What block `b` is for once the free list and the chunk are taken. */
  function PlannedOwner(g: Geometry, agno: nat, agfl: seq<nat>, chunk: Option<nat>, b: nat): Option<Owner> {
    if b in agfl then Some(AG)
    else if InChunk(g, chunk, b) then Some(INODES)
    else StaticOwner(g, agno, b)
  }

  ghost predicate Distinct(agfl: seq<nat>) {
    forall i, j :: 0 <= i < j < |agfl| ==> agfl[i] != agfl[j]
  }

  /** Free list and chunk are taken, without overlap, from what was free at first. */
  ghost predicate TakenFromFree(g: Geometry, agno: nat, agfl: seq<nat>, chunk: Option<nat>) {
    && Distinct(agfl)
    && (forall b: nat :: b in agfl ==> InitiallyFree(g, agno, b) && !InChunk(g, chunk, b))
    && (forall b: nat :: InChunk(g, chunk, b) ==> InitiallyFree(g, agno, b))
  }

  /** The free extents are exactly the rest, sorted, and add up. */
  ghost predicate FreeIsRest(
      g: Geometry, agno: nat, free: seq<AllocRec>, agfl: seq<nat>, chunk: Option<nat>) {
    && SortedFree(free)
    && (forall b: nat :: IsFree(free, b) <==>
          InitiallyFree(g, agno, b) && b !in agfl && !InChunk(g, chunk, b))
    && Total(free) + |agfl| + (if chunk.Some? then g.ChunkBlocks() else 0) == Total(InitialFree(g, agno))
  }

  /** The reverse map is sorted, merged, and has every block's owner. */
  ghost predicate RmapIsOwners(
      g: Geometry, agno: nat, rmap: seq<RmapRec>, agfl: seq<nat>, chunk: Option<nat>) {
    if !g.features.rmapbt then rmap == []
    else
      && SortedRmap(rmap)
      && forall b: nat :: OwnerAt(rmap, b) == PlannedOwner(g, agno, agfl, chunk, b)
  }

  lemma InitialValid(g: Geometry, agno: nat)
    requires LaidOut(g, agno)
    ensures FreeIsRest(g, agno, InitialFree(g, agno), [], None) && TakenFromFree(g, agno, [], None)
    ensures RmapIsOwners(g, agno, InitialRmap(g, agno), [], None)
  {
    hide OwnerAt, IsFree, InitialFree, InitialRmap, StaticOwner, InitiallyFree, SortedRmap, SortedFree;
    InitialRmapSorted(g, agno);
    InitialFreeIs(g, agno, 0);
    forall b: nat
      ensures IsFree(InitialFree(g, agno), b) <==> InitiallyFree(g, agno, b)
    {
      InitialFreeIs(g, agno, b);
    }
    if g.features.rmapbt {
      forall b: nat
        ensures OwnerAt(InitialRmap(g, agno), b) == StaticOwner(g, agno, b)
      {
        InitialRmapIs(g, agno, b);
      }
    } else {
      NoRmap(g, agno);
    }
  }

  lemma GroupLength(g: Geometry, agno: nat)
    requires LaidOut(g, agno)
    ensures 0 <= g.AgBlocks(agno)
  {
  }

  lemma NoRmap(g: Geometry, agno: nat)
    ensures !g.features.rmapbt ==> InitialRmap(g, agno) == []
  {
  }

  /** By size, then by block. */
  predicate NoLarger(a: AllocRec, c: AllocRec) {
    a.count < c.count || (a.count == c.count && a.start <= c.start)
  }

  predicate NoSmaller(a: AllocRec, c: AllocRec) {
    a.count > c.count || (a.count == c.count && a.start <= c.start)
  }

  /** Allocation by size. */
  ghost predicate BestFit(free: seq<AllocRec>, want: nat, i: nat)
    requires i < |free|
  {
    if exists j :: 0 <= j < |free| && free[j].count >= want then
      free[i].count >= want && forall j :: 0 <= j < |free| && free[j].count >= want ==> NoLarger(free[i], free[j])
    else forall j :: 0 <= j < |free| ==> NoSmaller(free[i], free[j])
  }

  function RangeSeq(start: nat, len: nat): (s: seq<nat>)
    ensures |s| == len && forall i :: 0 <= i < len ==> s[i] == start + i
    ensures forall b: nat :: b in s <==> start <= b < start + len
  {
    if len == 0 then [] else RangeSeq(start, len - 1) + [start + len - 1]
  }

  lemma FreeIsUnowned(
      g: Geometry, agno: nat, free: seq<AllocRec>, agfl: seq<nat>, chunk: Option<nat>, b: nat)
    requires g.features.rmapbt && FreeIsRest(g, agno, free, agfl, chunk) && IsFree(free, b)
    ensures PlannedOwner(g, agno, agfl, chunk, b).None?
  {
    Positions(g);
  }

  lemma FreeRangeIsUnowned(
      g: Geometry, agno: nat, free: seq<AllocRec>, agfl: seq<nat>, rmap: seq<RmapRec>, rec: RmapRec)
    requires g.features.rmapbt && FreeIsRest(g, agno, free, agfl, None) && RmapIsOwners(g, agno, rmap, agfl, None)
    requires forall b: nat :: rec.start <= b < rec.start + rec.count ==> IsFree(free, b)
    ensures Unowned(rmap, rec)
  {
    forall b: nat | rec.Has(b)
      ensures OwnerAt(rmap, b).None?
    {
      FreeIsUnowned(g, agno, free, agfl, None, b);
    }
  }

  /** A longer free list still has each block once, all from what was free. */
  lemma AgflKeepsTaken(g: Geometry, agno: nat, free: seq<AllocRec>, agfl: seq<nat>, start: nat, len: nat)
    requires TakenFromFree(g, agno, agfl, None) && FreeIsRest(g, agno, free, agfl, None)
    requires forall b: nat :: start <= b < start + len ==> IsFree(free, b)
    ensures TakenFromFree(g, agno, agfl + RangeSeq(start, len), None)
  {
    var all := agfl + RangeSeq(start, len);
    forall i, j | 0 <= i < j < |all|
      ensures all[i] != all[j]
    {
      if i < |agfl| <= j {
        assert all[i] in agfl && all[j] in RangeSeq(start, len);
      }
    }
  }

  /** The plan once the chunk at `at` is out of the free extents and in the reverse map. */
  lemma ChunkKeepsPlan(
      g: Geometry, agno: nat, before: seq<AllocRec>, free: seq<AllocRec>, agfl: seq<nat>,
      owners: seq<RmapRec>, rmap: seq<RmapRec>, at: nat)
    requires TakenFromFree(g, agno, agfl, None) && FreeIsRest(g, agno, before, agfl, None)
    requires RmapIsOwners(g, agno, owners, agfl, None)
    requires forall b: nat :: at <= b < at + g.ChunkBlocks() ==> IsFree(before, b)
    requires SortedFree(free) && Total(free) == Total(before) - g.ChunkBlocks()
    requires forall b: nat :: IsFree(free, b) <==> IsFree(before, b) && !(at <= b < at + g.ChunkBlocks())
    requires if g.features.rmapbt then
               && SortedRmap(rmap)
               && forall b: nat :: OwnerAt(rmap, b) ==
                    if RmapRec(at, g.ChunkBlocks(), INODES).Has(b) then Some(INODES) else OwnerAt(owners, b)
             else rmap == owners
    ensures TakenFromFree(g, agno, agfl, Some(at)) && FreeIsRest(g, agno, free, agfl, Some(at))
    ensures RmapIsOwners(g, agno, rmap, agfl, Some(at))
  {
    hide StaticOwner, InitiallyFree, SortedFree, SortedRmap, InitialFree, Total;
    if g.features.rmapbt {
      forall b: nat
        ensures OwnerAt(rmap, b) == PlannedOwner(g, agno, agfl, Some(at), b)
      {
        assert OwnerAt(owners, b) == PlannedOwner(g, agno, agfl, None, b);
        assert InChunk(g, Some(at), b) ==> IsFree(before, b);
      }
    }
  }

  class AgPlan {
    const agno: nat
    const length: nat
    var free: seq<AllocRec>
    var agfl: seq<nat>
    var rmap: seq<RmapRec>
    var chunk: Option<nat>

    ghost predicate Valid(g: Geometry)
      reads this
    {
      && LaidOut(g, agno) && length == g.AgBlocks(agno)
      && TakenFromFree(g, agno, agfl, chunk)
      && FreeIsRest(g, agno, free, agfl, chunk)
      && RmapIsOwners(g, agno, rmap, agfl, chunk)
    }

    /** The group with its headers and the log, nothing allocated. */
    constructor (g: Geometry, agno: nat)
      requires LaidOut(g, agno)
      ensures Valid(g) && this.agno == agno && free == InitialFree(g, agno) && agfl == [] && chunk == None
    {
      GroupLength(g, agno);
      hide LaidOut, TakenFromFree, FreeIsRest, RmapIsOwners, InitialFree, InitialRmap, Geometry.AgBlocks;
      this.agno, this.length := agno, g.AgBlocks(agno);
      free, rmap := InitialFree(g, agno), InitialRmap(g, agno);
      agfl, chunk := [], None;
      InitialValid(g, agno);
    }

    function FreeBlks(): nat
      reads this
    {
      Total(free)
    }

    /** Take `[start, start + len)` out of the free extents. */
    method Take(start: nat, len: nat) returns (r: Result<()>)
      requires SortedFree(free) && len > 0
      modifies `free
      ensures SortedFree(free)
      ensures r.Ok? ==> Total(free) == Total(old(free)) - len
      ensures r.Ok? ==> forall b: nat :: IsFree(free, b) <==> IsFree(old(free), b) && !(start <= b < start + len)
      ensures r.Err? ==> r.error == InvalidParams && free == old(free)
      ensures r.Ok? <==> forall b: nat :: start <= b < start + len ==> IsFree(old(free), b)
    {
      var i := 0;
      while i < |free| && !(free[i].start <= start && start + len <= free[i].start + free[i].count)
        invariant i <= |free|
        invariant forall j :: 0 <= j < i ==> !(free[j].start <= start && start + len <= free[j].start + free[j].count)
      {
        i := i + 1;
      }
      if i == |free| {
        NotFree(free, start, len);
        return Err(InvalidParams);
      }
      forall b: nat | start <= b < start + len
        ensures IsFree(free, b)
      {
        IndexIsFree(free, i, b);
      }
      Cut(i, start, len);
      TakeAt(old(free), i, start, len, free);
      r := Ok(());
    }

    /** Replace extent `i` by what is left of it. */
    method Cut(i: nat, start: nat, len: nat)
      requires i < |free| && free[i].start <= start && start + len <= free[i].start + free[i].count
      modifies `free
      ensures free == old(free)[..i] + Remnants(old(free)[i], start, len) + old(free)[i + 1..]
    {
      var rec := free[i];
      var rs, re := rec.start, rec.start + rec.count;
      free := free[..i] + free[i + 1..];
      var at := i;
      if start > rs {
        free := free[..at] + [AllocRec(rs, start - rs)] + free[at..];
        at := at + 1;
      }
      if start + len < re {
        free := free[..at] + [AllocRec(start + len, re - start - len)] + free[at..];
      }
    }

    /** Insert a reverse mapping, merged with what it touches of the same owner. */
    method RmapInsert(rec: RmapRec)
      requires SortedRmap(rmap) && rec.count > 0 && Unowned(rmap, rec)
      modifies `rmap
      ensures SortedRmap(rmap)
      ensures forall b: nat :: OwnerAt(rmap, b) == if rec.Has(b) then Some(rec.owner) else OwnerAt(old(rmap), b)
    {
      var pos := PartitionPoint(rmap, rec.start);
      hide SortedRmap, OwnerAt, PartitionPoint, Unowned, Joined;
      JoinedIs(rmap, pos, rec);
      var left, right := JoinsLeft(rmap, pos, rec), JoinsRight(rmap, pos, rec);
      if left && right {
        var l, r := rmap[pos - 1], rmap[pos];
        UpdateThenCut(rmap, pos - 1, RmapRec(l.start, l.count + (rec.count + r.count), l.owner));
        rmap := rmap[pos - 1 := RmapRec(l.start, l.count + (rec.count + r.count), l.owner)];
        rmap := rmap[..pos] + rmap[pos + 1..];
      } else if left {
        var l := rmap[pos - 1];
        UpdateIsSplice(rmap, pos - 1, RmapRec(l.start, l.count + rec.count, l.owner));
        rmap := rmap[pos - 1 := RmapRec(l.start, l.count + rec.count, l.owner)];
      } else if right {
        var r := rmap[pos];
        UpdateIsSplice(rmap, pos, RmapRec(rec.start, r.count + rec.count, r.owner));
        rmap := rmap[pos := RmapRec(rec.start, r.count + rec.count, r.owner)];
      } else {
        rmap := rmap[..pos] + [rec] + rmap[pos..];
      }
      assert rmap == Inserted(old(rmap), rec);
      InsertedSorted(old(rmap), rec);
      forall b: nat
        ensures OwnerAt(rmap, b) == if rec.Has(b) then Some(rec.owner) else OwnerAt(old(rmap), b)
      {
        InsertedOwners(old(rmap), rec, b);
      }
    }

    /**
     The extent the free list is filled from: the smallest that holds `want`, or the largest if
     none does; the first of equals.
     */
    method Pick(want: nat) returns (best: Option<nat>)
      requires want > 0
      ensures best.None? <==> free == []
      ensures best.Some? ==> best.value < |free| && BestFit(free, want, best.value)
    {
      best := None;
      for i := 0 to |free|
        invariant best.None? ==> forall j :: 0 <= j < i ==> free[j].count < want
        invariant best.Some? ==> best.value < i && free[best.value].count >= want
        invariant best.Some? ==> forall j :: 0 <= j < i && free[j].count >= want ==>
                    NoLarger(free[best.value], free[j])
      {
        if free[i].count >= want && (best.None? || !NoLarger(free[best.value], free[i])) {
          best := Some(i);
        }
      }
      if best.None? {
        for i := 0 to |free|
          invariant best.None? <==> i == 0
          invariant best.Some? ==> best.value < i
          invariant best.Some? ==> forall j :: 0 <= j < i ==> NoSmaller(free[best.value], free[j])
        {
          if best.None? || !NoSmaller(free[best.value], free[i]) {
            best := Some(i);
          }
        }
      }
    }

    /** Move the first `len` blocks of extent `i` to the free list. */
    method GiveToAgfl(g: Geometry, i: nat, len: nat)
      requires Valid(g) && chunk == None && i < |free| && 0 < len <= free[i].count
      modifies `free, `agfl, `rmap
      ensures Valid(g) && agfl == old(agfl) + RangeSeq(old(free)[i].start, len)
    {
      var pick := free[i];
      ghost var before := free;
      forall b: nat | pick.start <= b < pick.start + len
        ensures IsFree(free, b)
      {
        IndexIsFree(free, i, b);
      }
      var taken := Take(pick.start, len);
      assert taken.Ok?;
      agfl := agfl + RangeSeq(pick.start, len);
      if g.features.rmapbt {
        var rec := RmapRec(pick.start, len, AG);
        FreeRangeIsUnowned(g, agno, before, old(agfl), rmap, rec);
        RmapInsert(rec);
      }
      AgflKeepsTaken(g, agno, before, old(agfl), pick.start, len);
    }

    /** Fill the free list; it fails exactly when the group has too few free blocks. */
    method FillFreelist(g: Geometry) returns (r: Result<()>)
      requires Valid(g) && chunk == None && agfl == [] && free == InitialFree(g, agno)
      modifies `free, `agfl, `rmap
      ensures Valid(g)
      ensures r.Ok? <==> Total(InitialFree(g, agno)) >= g.MinFreelist()
      ensures r.Ok? ==> |agfl| == g.MinFreelist()
      ensures r.Err? ==> r.error == InvalidParams
      ensures r.Ok? && |InitialFree(g, agno)| == 1 ==>
                agfl == RangeSeq(InitialFree(g, agno)[0].start, g.MinFreelist())
    {
      var need := g.MinFreelist();
      while |agfl| < need
        invariant Valid(g) && |agfl| <= need
        invariant |InitialFree(g, agno)| == 1 && Total(InitialFree(g, agno)) >= need ==>
                    || (agfl == [] && free == InitialFree(g, agno))
                    || agfl == RangeSeq(InitialFree(g, agno)[0].start, need)
        decreases need - |agfl|
      {
        var want := need - |agfl|;
        var pick := Pick(want);
        if pick.None? {
          assert Total(free) == 0;
          return Err(InvalidParams);
        }
        var len := Min(want, free[pick.value].count);
        GiveToAgfl(g, pick.value, len);
      }
      r := Ok(());
    }

    /** Take the root inode chunk at `at`. */
    method TakeChunk(g: Geometry, at: nat) returns (r: Result<()>)
      requires Valid(g) && chunk == None && g.ChunkBlocks() > 0
      modifies `free, `rmap, `chunk
      ensures Valid(g)
      ensures r.Ok? ==> chunk == Some(at)
      ensures r.Err? ==> r.error == InvalidParams && chunk == None
      ensures r.Ok? <==> forall b: nat :: at <= b < at + g.ChunkBlocks() ==> InitiallyFree(g, agno, b) && b !in agfl
    {
      ghost var before, owners := free, rmap;
      var len := g.ChunkBlocks();
      assert chunk == None && FreeIsRest(g, agno, free, agfl, None) && RmapIsOwners(g, agno, rmap, agfl, None);
      var _ :- Take(at, len);
      assert forall b: nat :: at <= b < at + len ==> IsFree(before, b);
      if g.features.rmapbt {
        var rec := RmapRec(at, len, INODES);
        FreeRangeIsUnowned(g, agno, before, agfl, rmap, rec);
        RmapInsert(rec);
      }
      ChunkKeepsPlan(g, agno, before, free, agfl, owners, rmap, at);
      chunk := Some(at);
      r := Ok(());
    }
  }

  /** A range no single extent holds has a block that is not free. */
  lemma NotFree(free: seq<AllocRec>, start: nat, len: nat)
    requires SortedFree(free) && len > 0
    requires forall i :: 0 <= i < |free| ==>
               !(free[i].start <= start && start + len <= free[i].start + free[i].count)
    ensures exists b: nat :: start <= b < start + len && !IsFree(free, b)
  {
    if IsFree(free, start) {
      var i := FreeHasIndex(free, start);
      var b := free[i].start + free[i].count;
      if IsFree(free, b) {
        var j := FreeHasIndex(free, b);
      }
    }
  }

  // ---------------------------------------------------------------------------------------
  // Whole groups.

  /** Room for the free list and, in group 0, the root chunk; for a log at the end of the headers. */
  predicate PlanFits(g: Geometry, agno: nat) {
    && Total(InitialFree(g, agno)) >= g.MinFreelist()
    && (agno == 0 ==> g.RootChunkAgbno() + g.ChunkBlocks() <= g.AgBlocks(agno))
  }

  lemma RoundUpBounds(n: nat, m: pos)
    ensures n <= RoundUp(n, m) < n + m && RoundUp(n, m) % m == 0
  {
    MulMod(CeilDiv(n, m), m);
  }

  /** The root chunk's place is past everything the free list takes from a group's first extent. */
  lemma RootChunkPastFreelist(g: Geometry)
    requires LaidOut(g, 0) && g.logAgbno == g.PreallocBlocks() && InitialFree(g, 0) != []
    ensures |InitialFree(g, 0)| == 1
    ensures g.RootChunkAgbno() >= InitialFree(g, 0)[0].start + g.MinFreelist()
  {
    Positions(g);
    var first :=
      g.PreallocBlocks() + g.MinFreelist() + if g.logagno == 0 then g.logblocks else 0;
    if g.InoAlignmt() > 1 {
      RoundUpBounds(first, g.InoAlignmt());
    }
  }

  /** With a single free extent, the chunk is free after the free list exactly when it is inside the group. */
  lemma ChunkIsFree(g: Geometry)
    requires LaidOut(g, 0) && g.logAgbno == g.PreallocBlocks() && InitialFree(g, 0) != [] && g.ChunkBlocks() > 0
    ensures var at := g.RootChunkAgbno();
            (forall b: nat :: at <= b < at + g.ChunkBlocks() ==>
               InitiallyFree(g, 0, b) && b !in RangeSeq(InitialFree(g, 0)[0].start, g.MinFreelist()))
            <==> at + g.ChunkBlocks() <= g.AgBlocks(0)
  {
    RootChunkPastFreelist(g);
    var at := g.RootChunkAgbno();
    var start := InitialFree(g, 0)[0].start;
    assert start == g.PreallocBlocks() + if g.logagno == 0 then g.logblocks else 0;
    if forall b: nat :: at <= b < at + g.ChunkBlocks() ==>
         InitiallyFree(g, 0, b) && b !in RangeSeq(start, g.MinFreelist()) {
      assert InitiallyFree(g, 0, at + g.ChunkBlocks() - 1);
    }
  }

  /** The end state of group `agno`. */
  method PlanAg(g: Geometry, agno: nat) returns (r: Result<AgPlan>)
    requires LaidOut(g, agno) && g.ChunkBlocks() > 0
    ensures r.Err? ==> r.error == InvalidParams
    ensures r.Ok? ==>
              var plan := r.value;
              && fresh(plan) && plan.Valid(g) && plan.agno == agno
              && |plan.agfl| == g.MinFreelist()
              && plan.chunk == if agno == 0 then Some(g.RootChunkAgbno()) else None
    ensures g.logAgbno == g.PreallocBlocks() ==> (r.Ok? <==> PlanFits(g, agno))
  {
    hide InitiallyFree, IsFree, OwnerAt, Total;
    var plan := new AgPlan(g, agno);
    var filled := plan.FillFreelist(g);
    if filled.Err? {
      return Err(filled.error);
    }
    assert InitialFree(g, agno) != [] by {
      NoTotal();
    }
    if agno == 0 {
      if g.logAgbno == g.PreallocBlocks() {
        RootChunkPastFreelist(g);
        ChunkIsFree(g);
      }
      var taken := plan.TakeChunk(g, g.RootChunkAgbno());
      if taken.Err? {
        return Err(InvalidParams);
      }
    }
    r := Ok(plan);
  }

  lemma NoTotal()
    ensures Total([]) == 0
  {
  }

  /**
   Every block of a planned group is exactly one of header or root, log, free, on the free list,
   or in the root chunk, and no block past its end is any of them.
   */
  lemma Partition(g: Geometry, agno: nat, free: seq<AllocRec>, agfl: seq<nat>, chunk: Option<nat>, b: nat)
    requires LaidOut(g, agno) && TakenFromFree(g, agno, agfl, chunk) && FreeIsRest(g, agno, free, agfl, chunk)
    requires agfl != []
    ensures var inLog := agno == g.logagno && g.logAgbno <= b < g.logAgbno + g.logblocks;
            var inChunk := chunk.Some? && chunk.value <= b < chunk.value + g.ChunkBlocks();
            Flag(b < g.PreallocBlocks()) + Flag(inLog) + Flag(IsFree(free, b)) + Flag(b in agfl) + Flag(inChunk)
            == Flag(b < g.AgBlocks(agno))
  {
    InitialFreeIs(g, agno, agfl[0]);
    assert InitiallyFree(g, agno, agfl[0]) by {
      assert agfl[0] in agfl;
    }
    assert InitialFree(g, agno) != [];
  }

  /**
   With the reverse map on, a block has an owner exactly when it is not free, and the right one: the
   filesystem for the headers, the group for its own btrees' roots and the free list, the inode btrees
   for theirs, the reference count btree, the inodes and the log.
   */
  lemma OwnedUnlessFree(
      g: Geometry, agno: nat, free: seq<AllocRec>, agfl: seq<nat>, rmap: seq<RmapRec>, chunk: Option<nat>, b: nat)
    requires LaidOut(g, agno) && g.features.rmapbt && b < g.AgBlocks(agno)
    requires TakenFromFree(g, agno, agfl, chunk) && FreeIsRest(g, agno, free, agfl, chunk)
    requires RmapIsOwners(g, agno, rmap, agfl, chunk)
    ensures OwnerAt(rmap, b).None? <==> IsFree(free, b)
    ensures b < g.HeaderBlocks() ==> OwnerAt(rmap, b) == Some(FS)
    ensures b in {g.BnoBlock(), g.CntBlock(), g.RmapBlock()} ==> OwnerAt(rmap, b) == Some(AG)
    ensures b == g.IbtBlock() || (g.features.finobt && b == g.FibtBlock()) ==> OwnerAt(rmap, b) == Some(INOBT)
    ensures g.features.reflink && b == g.RefcBlock() ==> OwnerAt(rmap, b) == Some(REFC)
    ensures b in agfl ==> OwnerAt(rmap, b) == Some(AG)
    ensures chunk.Some? && chunk.value <= b < chunk.value + g.ChunkBlocks() ==> OwnerAt(rmap, b) == Some(INODES)
    ensures agno == g.logagno && g.logAgbno <= b < g.logAgbno + g.logblocks ==> OwnerAt(rmap, b) == Some(LOG)
  {
    Positions(g);
    hide FreeIsRest, Total, SortedFree, SortedRmap;
    NotTakenBelow(g, agno, agfl, chunk, b);
    FreeIs(g, agno, free, agfl, chunk, b);
    assert OwnerAt(rmap, b) == PlannedOwner(g, agno, agfl, chunk, b);
  }

  lemma NotTakenBelow(g: Geometry, agno: nat, agfl: seq<nat>, chunk: Option<nat>, b: nat)
    requires TakenFromFree(g, agno, agfl, chunk)
    ensures b in agfl || InChunk(g, chunk, b) ==> g.PreallocBlocks() <= b && !InLog(g, agno, b)
    ensures b in agfl ==> !InChunk(g, chunk, b)
  {
  }

  lemma FreeIs(g: Geometry, agno: nat, free: seq<AllocRec>, agfl: seq<nat>, chunk: Option<nat>, b: nat)
    requires FreeIsRest(g, agno, free, agfl, chunk)
    ensures IsFree(free, b) <==> InitiallyFree(g, agno, b) && b !in agfl && !InChunk(g, chunk, b)
  {
  }

  // ---------------------------------------------------------------------------------------
  // All groups.

  /** The groups tile the data blocks: all full but the last, which is not empty. */
  predicate Tiled(g: Geometry) {
    (g.agcount - 1) * g.agsize < g.dblocks <= g.agcount * g.agsize && g.logagno < g.agcount
  }

  function InitialTotals(g: Geometry, n: nat): nat {
    if n == 0 then 0 else InitialTotals(g, n - 1) + Total(InitialFree(g, n - 1))
  }

  predicate LogFits(g: Geometry) {
    g.logAgbno + g.logblocks < g.AgBlocks(g.logagno)
  }

  lemma OneMore(n: nat, m: nat)
    requires n > 0
    ensures n * m == (n - 1) * m + m
  {
  }

  lemma GroupTotal(g: Geometry, agno: nat)
    requires LaidOut(g, agno) && (agno == g.logagno ==> LogFits(g))
    ensures Total(InitialFree(g, agno)) ==
            g.AgBlocks(agno) - g.PreallocBlocks() - if agno == g.logagno then g.logblocks else 0
  {
    InitialFreeIs(g, agno, 0);
  }

  /** Blocks free before any allocation in the first `n` groups. */
  lemma {:induction false} InitialTotalsAre(g: Geometry, n: nat)
    requires Tiled(g) && n <= g.agcount && LogFits(g)
    requires forall a :: 0 <= a < g.agcount ==> LaidOut(g, a)
    ensures InitialTotals(g, n) ==
            (if n == g.agcount then g.dblocks else n * g.agsize)
            - n * g.PreallocBlocks() - if g.logagno < n then g.logblocks else 0
  {
    hide InitialFree, Total, LaidOut, LogFits, Geometry.PreallocBlocks;
    if n > 0 {
      InitialTotalsAre(g, n - 1);
      GroupTotal(g, n - 1);
      OneMore(n, g.agsize);
      OneMore(n, g.PreallocBlocks());
    }
  }

  /** Plan every group, and count the free blocks the finished superblock records. */
  method PlanAll(g: Geometry) returns (r: Result<seq<AgPlan>>, fdblocks: nat)
    requires Tiled(g) && g.ChunkBlocks() > 0 && g.logAgbno == g.PreallocBlocks()
    requires forall a :: 0 <= a < g.agcount ==> LaidOut(g, a)
    ensures r.Ok? <==> forall a :: 0 <= a < g.agcount ==> PlanFits(g, a)
    ensures r.Ok? ==> |r.value| == g.agcount && forall a :: 0 <= a < g.agcount ==>
                        r.value[a].agno == a && r.value[a].Valid(g)
    ensures r.Ok? ==> fdblocks == g.InitialFdblocks() - g.ChunkBlocks()
  {
    hide LaidOut, Total, InitialFree;
    var plans: seq<AgPlan> := [];
    fdblocks := 0;
    for a := 0 to g.agcount
      invariant |plans| == a && forall i :: 0 <= i < a ==> plans[i].agno == i && plans[i].Valid(g)
      invariant forall i :: 0 <= i < a ==> PlanFits(g, i)
      invariant fdblocks + (if a > 0 then g.ChunkBlocks() else 0) == InitialTotals(g, a)
    {
      var plan := PlanAg(g, a);
      if plan.Err? {
        return Err(plan.error), fdblocks;
      }
      fdblocks := fdblocks + plan.value.FreeBlks() + |plan.value.agfl|;
      plans := plans + [plan.value];
    }
    LogHasRoom(g);
    InitialTotalsAre(g, g.agcount);
    r := Ok(plans);
  }

  lemma LogHasRoom(g: Geometry)
    requires Tiled(g) && LaidOut(g, g.logagno) && PlanFits(g, g.logagno)
    requires g.logAgbno == g.PreallocBlocks()
    ensures LogFits(g)
  {
    InitialFreeIs(g, g.logagno, 0);
  }
}
