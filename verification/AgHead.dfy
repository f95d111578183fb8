/** What a group's headers record of its free space: the longest extent, and the extents by size. */
module AgHead {
  import opened Prelude
  import opened AgPlan

  /** The longest free extent, 0 if there is none. */
  function Longest(free: seq<AllocRec>): nat {
    if free == [] then 0 else Max(free[0].count, Longest(free[1..]))
  }

  lemma {:induction false} LongestIs(free: seq<AllocRec>)
    ensures forall i :: 0 <= i < |free| ==> free[i].count <= Longest(free)
    ensures if free == [] then Longest(free) == 0 else exists i :: 0 <= i < |free| && free[i].count == Longest(free)
  {
    if free != [] {
      LongestIs(free[1..]);
      forall i | 0 < i < |free|
        ensures free[i].count <= Longest(free)
      {
        assert free[i] == free[1..][i - 1];
      }
      if free[0].count != Longest(free) {
        var i :| 0 <= i < |free[1..]| && free[1..][i].count == Longest(free[1..]);
        assert free[i + 1].count == Longest(free);
      }
    }
  }

  predicate SortedBySize(s: seq<AllocRec>) {
    forall i, j :: 0 <= i < j < |s| ==> NoLarger(s[i], s[j])
  }

  function PutBySize(s: seq<AllocRec>, r: AllocRec): seq<AllocRec>
    decreases |s|
  {
    if s == [] || NoLarger(s[|s| - 1], r) then s + [r] else PutBySize(s[..|s| - 1], r) + [s[|s| - 1]]
  }

  /** The extents by size, then by block. */
  function BySize(free: seq<AllocRec>): seq<AllocRec>
    decreases |free|
  {
    if free == [] then [] else PutBySize(BySize(free[..|free| - 1]), free[|free| - 1])
  }

  lemma {:induction false} PutAdds(s: seq<AllocRec>, r: AllocRec)
    ensures multiset(PutBySize(s, r)) == multiset(s) + multiset{r}
    decreases |s|
  {
    hide NoLarger;
    if s != [] && !NoLarger(s[|s| - 1], r) {
      assert s == s[..|s| - 1] + [s[|s| - 1]];
      PutAdds(s[..|s| - 1], r);
    }
  }

  lemma SortedThen(s: seq<AllocRec>, last: AllocRec)
    requires SortedBySize(s) && forall r :: r in s ==> NoLarger(r, last)
    ensures SortedBySize(s + [last])
  {
    hide NoLarger;
  }

  lemma {:induction false} PutSorts(s: seq<AllocRec>, r: AllocRec)
    requires SortedBySize(s)
    ensures SortedBySize(PutBySize(s, r))
    decreases |s|
  {
    if s == [] || NoLarger(s[|s| - 1], r) {
      SortedThen(s, r);
    } else {
      var rest, last := s[..|s| - 1], s[|s| - 1];
      PutSorts(rest, r);
      PutAdds(rest, r);
      forall x | x in PutBySize(rest, r)
        ensures NoLarger(x, last)
      {
        assert x in multiset(PutBySize(rest, r));
      }
      SortedThen(PutBySize(rest, r), last);
    }
  }

  /** They are the free extents, every one as often as there, and in order. */
  lemma {:induction false} BySizeIsSorted(free: seq<AllocRec>)
    ensures SortedBySize(BySize(free)) && multiset(BySize(free)) == multiset(free)
    decreases |free|
  {
    if free != [] {
      var rest, last := free[..|free| - 1], free[|free| - 1];
      assert free == rest + [last];
      BySizeIsSorted(rest);
      PutAdds(BySize(rest), last);
      PutSorts(BySize(rest), last);
    }
  }

  lemma SameLast(s: seq<AllocRec>, t: seq<AllocRec>)
    requires SortedBySize(s) && SortedBySize(t) && multiset(s) == multiset(t) && s != []
    ensures |s| == |t| && s[|s| - 1] == t[|t| - 1]
  {
    assert |s| == |multiset(s)| == |t|;
    var n := |s| - 1;
    assert s[n] in multiset(t) && t[n] in multiset(s);
  }

  lemma WithoutLast(s: seq<AllocRec>)
    requires s != [] && SortedBySize(s)
    ensures SortedBySize(s[..|s| - 1])
    ensures multiset(s[..|s| - 1]) == multiset(s) - multiset{s[|s| - 1]}
  {
    assert s == s[..|s| - 1] + [s[|s| - 1]];
  }

  lemma SameWithLast(s: seq<AllocRec>, t: seq<AllocRec>)
    requires |s| == |t| > 0 && s[..|s| - 1] == t[..|t| - 1] && s[|s| - 1] == t[|t| - 1]
    ensures s == t
  {
    assert s == s[..|s| - 1] + [s[|s| - 1]] && t == t[..|t| - 1] + [t[|t| - 1]];
  }

  lemma NoneIn(t: seq<AllocRec>)
    requires multiset(t) == multiset{}
    ensures t == []
  {
    assert |t| == |multiset(t)|;
  }

  /** However they are sorted, there is only one such order. */
  lemma {:induction false} OneOrder(s: seq<AllocRec>, t: seq<AllocRec>)
    requires SortedBySize(s) && SortedBySize(t) && multiset(s) == multiset(t)
    ensures s == t
    decreases |s|
  {
    hide NoLarger, SortedBySize;
    if s == [] {
      NoneIn(t);
    } else {
      SameLast(s, t);
      WithoutLast(s);
      WithoutLast(t);
      OneOrder(s[..|s| - 1], t[..|t| - 1]);
      SameWithLast(s, t);
    }
  }

  /** The last by size is the longest. */
  lemma LongestIsLast(free: seq<AllocRec>)
    requires free != []
    ensures |BySize(free)| == |free| && BySize(free)[|free| - 1].count == Longest(free)
  {
    BySizeIsSorted(free);
    LongestIs(free);
    var s := BySize(free);
    assert |s| == |multiset(s)| == |free|;
    hide BySize, Longest;
    var i :| 0 <= i < |free| && free[i].count == Longest(free);
    assert free[i] in multiset(s) && s[|s| - 1] in multiset(free);
  }
}
