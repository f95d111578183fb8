/** The level-order walk of a btree on disk. */
module BtreeWalk {
  import opened Prelude
  import opened Bytes

  const MAGIC: nat := 0
  const LEVEL: nat := 4
  const NUMRECS: nat := 6
  const RECS: nat := 56
  const MAX_DEPTH: nat := 16

  type Rec = seq<byte>

  /** A kind of btree: its magic, and the sizes of a key and a record. */
  datatype Tree = Tree(magic: nat, key: nat, rec: pos)

  /** The blocks of an allocation group as the device reads them, or its refusals. */
  type Group = seq<Result<seq<byte>>>

  /** Every block has room for a header. */
  predicate Headed(ag: Group) {
    forall i :: 0 <= i < |ag| && ag[i].Ok? ==> RECS <= |ag[i].value|
  }

  predicate Readable(ag: Group) {
    forall i :: 0 <= i < |ag| ==> ag[i].Ok?
  }

  /** A block as the walk takes it: not of this tree, a leaf's records, a node's pointers, or not read. */
  datatype Block = Other | Leaf(recs: seq<Rec>) | Node(ptrs: seq<nat>) | Unread(error: Error)

  /** Where record `r` starts. */
  function RecOff(t: Tree, r: nat): nat {
    RECS + r * t.rec
  }

  /** Where pointer `r` starts, past the keys. */
  function PtrOff(t: Tree, maxrecs: nat, r: nat): nat {
    RECS + maxrecs * t.key + 4 * r
  }

  function MaxRecs(t: Tree, len: nat): nat
    requires RECS <= len
  {
    (len - RECS) / (t.key + 4)
  }

  lemma RecInside(t: Tree, len: nat, r: nat)
    requires RECS <= len && r < (len - RECS) / t.rec
    ensures RecOff(t, r) + t.rec <= len
  {
    MulGrows(r + 1, (len - RECS) / t.rec, t.rec);
    assert (r + 1) * t.rec == r * t.rec + t.rec;
  }

  lemma PtrInside(t: Tree, len: nat, r: nat)
    requires RECS <= len && r < MaxRecs(t, len)
    ensures PtrOff(t, MaxRecs(t, len), r) + 4 <= len
  {
    var n := MaxRecs(t, len);
    assert n * (t.key + 4) <= len - RECS;
    assert n * (t.key + 4) == n * t.key + 4 * n;
  }

  function RecAt(t: Tree, b: seq<byte>, r: nat): Rec
    requires RECS <= |b| && r < (|b| - RECS) / t.rec
  {
    RecInside(t, |b|, r);
    b[RecOff(t, r)..RecOff(t, r) + t.rec]
  }

  function PtrAt(t: Tree, b: seq<byte>, r: nat): nat
    requires RECS <= |b| && r < MaxRecs(t, |b|)
  {
    PtrInside(t, |b|, r);
    Be32(b, PtrOff(t, MaxRecs(t, |b|), r))
  }

  /** No more records or pointers than fit, whatever the count says. */
  function DecodeBlock(t: Tree, b: seq<byte>): (r: Block)
    requires RECS <= |b|
    ensures !r.Unread?
  {
    if Be32(b, MAGIC) != t.magic then Other
    else if Be16(b, LEVEL) == 0 then
      Leaf(seq(Min(Be16(b, NUMRECS), (|b| - RECS) / t.rec) as nat,
               r requires 0 <= r < (|b| - RECS) / t.rec => RecAt(t, b, r)))
    else
      Node(seq(Min(Be16(b, NUMRECS), MaxRecs(t, |b|)) as nat,
               r requires 0 <= r < MaxRecs(t, |b|) => PtrAt(t, b, r)))
  }

  /** A leaf by its bytes: its records follow the header one after the other. */
  lemma LeafInBytes(t: Tree, b: seq<byte>, r: nat)
    requires |b| >= 56 && Be32(b, 0) == t.magic && Be16(b, 4) == 0
    ensures var d, most, count := DecodeBlock(t, b), Quotient(|b| - 56, t.rec), Be16(b, 6);
            && d.Leaf? && |d.recs| == (if count < most then count else most)
            && (r < |d.recs| ==>
                  var at := 56 + r * t.rec;
                  at + t.rec <= |b| && d.recs[r] == b[at..at + t.rec])
  {
    hide Be16, Be32, RecAt;
    if r < (|b| - RECS) / t.rec {
      RecAtIs(t, b, r);
    }
  }

  lemma RecAtIs(t: Tree, b: seq<byte>, r: nat)
    requires |b| >= 56 && r < (|b| - RECS) / t.rec
    ensures var at := 56 + r * t.rec; at + t.rec <= |b| && RecAt(t, b, r) == b[at..at + t.rec]
  {
    RecInside(t, |b|, r);
  }

  /** A node by its bytes: its pointers follow room for as many keys as it can hold. */
  lemma NodeInBytes(t: Tree, b: seq<byte>, r: nat)
    requires |b| >= 56 && Be32(b, 0) == t.magic && Be16(b, 4) != 0
    ensures var d, most, count := DecodeBlock(t, b), Quotient(|b| - 56, t.key + 4), Be16(b, 6);
            && d.Node? && |d.ptrs| == (if count < most then count else most)
            && (r < |d.ptrs| ==>
                  var at := 56 + Times(most, t.key) + 4 * r;
                  at + 4 <= |b| && d.ptrs[r] == Be32(b, at))
  {
    hide Be16, Be32, PtrAt;
    if r < MaxRecs(t, |b|) {
      PtrAtIs(t, b, r);
    }
  }

  lemma PtrAtIs(t: Tree, b: seq<byte>, r: nat)
    requires |b| >= 56 && r < MaxRecs(t, |b|)
    ensures var at := 56 + MaxRecs(t, |b|) * t.key + 4 * r; at + 4 <= |b| && PtrAt(t, b, r) == Be32(b, at)
  {
    PtrInside(t, |b|, r);
  }

  /** A block with another magic is none of the tree's. */
  lemma OtherInBytes(t: Tree, b: seq<byte>)
    requires |b| >= 56
    ensures DecodeBlock(t, b).Other? <==> Be32(b, 0) != t.magic
  {
  }

  /** The block a pointer names. */
  function BlockAt(t: Tree, ag: Group, agbno: nat): Block
    requires Headed(ag)
  {
    if agbno >= |ag| then Other
    else if ag[agbno].Err? then Unread(ag[agbno].error)
    else DecodeBlock(t, ag[agbno].value)
  }

  function LeavesOf(b: Block): seq<Rec> {
    if b.Leaf? then b.recs else []
  }

  function ChildrenOf(b: Block): seq<nat> {
    if b.Node? then b.ptrs else []
  }

  function Leaves(t: Tree, ag: Group, blocks: seq<nat>): seq<Rec>
    requires Headed(ag)
    decreases |blocks|
  {
    if blocks == [] then []
    else Leaves(t, ag, blocks[..|blocks| - 1]) + LeavesOf(BlockAt(t, ag, blocks[|blocks| - 1]))
  }

  function Children(t: Tree, ag: Group, blocks: seq<nat>): seq<nat>
    requires Headed(ag)
    decreases |blocks|
  {
    if blocks == [] then []
    else Children(t, ag, blocks[..|blocks| - 1]) + ChildrenOf(BlockAt(t, ag, blocks[|blocks| - 1]))
  }

  /** The first refusal in a level. */
  function ReadError(t: Tree, ag: Group, blocks: seq<nat>): Option<Error>
    requires Headed(ag)
    decreases |blocks|
  {
    if blocks == [] then None
    else
      var before, b := ReadError(t, ag, blocks[..|blocks| - 1]), BlockAt(t, ag, blocks[|blocks| - 1]);
      if before.None? && b.Unread? then Some(b.error) else before
  }

  /** The walk from a level on, `left` levels before it gives up. */
  function Walk(t: Tree, ag: Group, blocks: seq<nat>, left: nat): Result<seq<Rec>>
    requires Headed(ag)
    decreases left
  {
    if blocks == [] then Ok([])
    else if ReadError(t, ag, blocks).Some? then Err(ReadError(t, ag, blocks).value)
    else if left == 0 then Err(Corrupt)
    else
      After(Leaves(t, ag, blocks), Walk(t, ag, Children(t, ag, blocks), left - 1))
  }

  /** `leaves` before what the rest of a walk found. */
  function After(leaves: seq<Rec>, rest: Result<seq<Rec>>): Result<seq<Rec>> {
    if rest.Ok? then Ok(leaves + rest.value) else rest
  }

  lemma AfterTwice(a: seq<Rec>, b: seq<Rec>, rest: Result<seq<Rec>>)
    ensures After([], rest) == rest && After(a, Ok([])) == Ok(a)
    ensures After(a, After(b, rest)) == After(a + b, rest)
  {
    assert a + [] == a;
    if rest.Ok? {
      assert [] + rest.value == rest.value;
      assert a + (b + rest.value) == a + b + rest.value;
    }
  }

  lemma AfterFailed(leaves: seq<Rec>, e: Error)
    ensures After(leaves, Err(e)) == Err(e)
  {
  }

  // ---------------------------------------------------------------------------------------
  // The walk, block by block.

  method ReadLeaf(t: Tree, b: seq<byte>) returns (recs: seq<Rec>)
    requires RECS <= |b| && DecodeBlock(t, b).Leaf?
    ensures recs == DecodeBlock(t, b).recs
  {
    recs := [];
    var n := Min(Be16(b, NUMRECS), (|b| - RECS) / t.rec);
    for r := 0 to n
      invariant recs == DecodeBlock(t, b).recs[..r]
    {
      RecInside(t, |b|, r);
      var at := RECS + r * t.rec;
      recs := recs + [b[at..at + t.rec]];
    }
  }

  method ReadNode(t: Tree, b: seq<byte>) returns (ptrs: seq<nat>)
    requires RECS <= |b| && DecodeBlock(t, b).Node?
    ensures ptrs == DecodeBlock(t, b).ptrs
  {
    ptrs := [];
    var maxrecs := (|b| - RECS) / (t.key + 4);
    var n := Min(Be16(b, NUMRECS), maxrecs);
    for r := 0 to n
      invariant ptrs == DecodeBlock(t, b).ptrs[..r]
    {
      PtrInside(t, |b|, r);
      ptrs := ptrs + [Be32(b, RECS + maxrecs * t.key + 4 * r)];
    }
  }

  method WalkLevel(t: Tree, ag: Group, blocks: seq<nat>) returns (r: Result<(seq<Rec>, seq<nat>)>)
    requires Headed(ag)
    ensures r == match ReadError(t, ag, blocks)
                 case Some(e) => Err(e)
                 case None => Ok((Leaves(t, ag, blocks), Children(t, ag, blocks)))
  {
    var leaves, next := [], [];
    hide DecodeBlock;
    for i := 0 to |blocks|
      invariant leaves == Leaves(t, ag, blocks[..i]) && next == Children(t, ag, blocks[..i])
      invariant ReadError(t, ag, blocks[..i]).None?
    {
      assert blocks[..i + 1][..i] == blocks[..i];
      if blocks[i] < |ag| {
        if ag[blocks[i]].Err? {
          StaysFailed(t, ag, blocks, i + 1);
          return Err(ag[blocks[i]].error);
        }
        var b := ag[blocks[i]].value;
        match DecodeBlock(t, b)
        case Other =>
        case Leaf(_) =>
          var recs := ReadLeaf(t, b);
          leaves := leaves + recs;
        case Node(_) =>
          var ptrs := ReadNode(t, b);
          next := next + ptrs;
      }
    }
    assert blocks[..|blocks|] == blocks;
    r := Ok((leaves, next));
  }

  lemma {:induction false} StaysFailed(t: Tree, ag: Group, blocks: seq<nat>, n: nat)
    requires Headed(ag) && n <= |blocks| && ReadError(t, ag, blocks[..n]).Some?
    ensures ReadError(t, ag, blocks) == ReadError(t, ag, blocks[..n])
    decreases |blocks|
  {
    if n == |blocks| {
      assert blocks[..n] == blocks;
    } else {
      assert blocks[..|blocks| - 1][..n] == blocks[..n];
      StaysFailed(t, ag, blocks[..|blocks| - 1], n);
    }
  }

  /** The leaf records from `root`, level by level. */
  method DumpTree(t: Tree, ag: Group, root: nat) returns (r: Result<seq<Rec>>)
    requires Headed(ag)
    ensures r == Walk(t, ag, [root], 16)
  {
    var blocks, leaves, depth := [root], [], 0;
    hide Leaves, Children, After, ReadError;
    AfterTwice([], [], Walk(t, ag, blocks, MAX_DEPTH));
    while blocks != []
      invariant depth <= MAX_DEPTH
      invariant Walk(t, ag, [root], MAX_DEPTH) ==
                After(leaves, Walk(t, ag, blocks, MAX_DEPTH - depth))
      decreases MAX_DEPTH - depth
    {
      var level := WalkLevel(t, ag, blocks);
      if level.Err? {
        AfterFailed(leaves, level.error);
        return Err(level.error);
      }
      var (found, next) := level.value;
      if depth < MAX_DEPTH {
        AfterTwice(leaves, found, Walk(t, ag, next, MAX_DEPTH - depth - 1));
      }
      AfterFailed(leaves, Corrupt);
      leaves := leaves + found;
      blocks := next;
      depth := depth + 1;
      if depth > MAX_DEPTH {
        return Err(Corrupt);
      }
    }
    AfterTwice(leaves, [], Ok([]));
    r := Ok(leaves);
  }

  // ---------------------------------------------------------------------------------------
  // Trees.

  /** A tree of `h` levels of nodes, none empty, over leaves all at the same depth. */
  predicate Uniform(t: Tree, ag: Group, agbno: nat, h: nat)
    requires Headed(ag)
    decreases h
  {
    if h == 0 then BlockAt(t, ag, agbno).Leaf?
    else
      && BlockAt(t, ag, agbno).Node? && BlockAt(t, ag, agbno).ptrs != []
      && forall r :: 0 <= r < |BlockAt(t, ag, agbno).ptrs| ==> Uniform(t, ag, BlockAt(t, ag, agbno).ptrs[r], h - 1)
  }

  /** The leaf records of a tree, left to right. */
  function InOrder(t: Tree, ag: Group, agbno: nat, h: nat): seq<Rec>
    requires Headed(ag)
    decreases h, 0
  {
    if h == 0 then LeavesOf(BlockAt(t, ag, agbno)) else AllInOrder(t, ag, ChildrenOf(BlockAt(t, ag, agbno)), h - 1)
  }

  function AllInOrder(t: Tree, ag: Group, blocks: seq<nat>, h: nat): seq<Rec>
    requires Headed(ag)
    decreases h, 1 + |blocks|
  {
    if blocks == [] then []
    else AllInOrder(t, ag, blocks[..|blocks| - 1], h) + InOrder(t, ag, blocks[|blocks| - 1], h)
  }

  predicate AllUniform(t: Tree, ag: Group, blocks: seq<nat>, h: nat)
    requires Headed(ag)
  {
    forall i :: 0 <= i < |blocks| ==> Uniform(t, ag, blocks[i], h)
  }

  lemma {:induction false} InOrderConcat(t: Tree, ag: Group, a: seq<nat>, b: seq<nat>, h: nat)
    requires Headed(ag)
    ensures AllInOrder(t, ag, a + b, h) == AllInOrder(t, ag, a, h) + AllInOrder(t, ag, b, h)
    decreases |b|
  {
    if b == [] {
      assert a + b == a;
    } else {
      assert (a + b)[..|a + b| - 1] == a + b[..|b| - 1];
      InOrderConcat(t, ag, a, b[..|b| - 1], h);
    }
  }

  /** A level of leaves is in order. */
  lemma {:induction false} LastLevel(t: Tree, ag: Group, blocks: seq<nat>)
    requires Headed(ag) && AllUniform(t, ag, blocks, 0)
    ensures Leaves(t, ag, blocks) == AllInOrder(t, ag, blocks, 0) && Children(t, ag, blocks) == []
    ensures ReadError(t, ag, blocks).None?
    decreases |blocks|
  {
    hide DecodeBlock, BlockAt;
    if blocks != [] {
      LastLevel(t, ag, blocks[..|blocks| - 1]);
      assert Uniform(t, ag, blocks[|blocks| - 1], 0);
    }
  }

  lemma UniformConcat(t: Tree, ag: Group, a: seq<nat>, b: seq<nat>, h: nat)
    requires Headed(ag) && AllUniform(t, ag, a, h) && AllUniform(t, ag, b, h)
    ensures AllUniform(t, ag, a + b, h)
  {
  }

  lemma NodeOf(t: Tree, ag: Group, agbno: nat, h: nat)
    requires Headed(ag) && h > 0 && Uniform(t, ag, agbno, h)
    ensures !BlockAt(t, ag, agbno).Unread?
    ensures LeavesOf(BlockAt(t, ag, agbno)) == [] && ChildrenOf(BlockAt(t, ag, agbno)) != []
    ensures AllUniform(t, ag, ChildrenOf(BlockAt(t, ag, agbno)), h - 1)
    ensures InOrder(t, ag, agbno, h) == AllInOrder(t, ag, ChildrenOf(BlockAt(t, ag, agbno)), h - 1)
  {
    hide BlockAt, AllInOrder;
  }

  /** Below a level of nodes are their children, which hold the same records in the same order. */
  lemma {:induction false} NextLevel(t: Tree, ag: Group, blocks: seq<nat>, h: nat)
    requires Headed(ag) && h > 0 && AllUniform(t, ag, blocks, h)
    ensures Leaves(t, ag, blocks) == [] && ReadError(t, ag, blocks).None?
    ensures AllUniform(t, ag, Children(t, ag, blocks), h - 1)
    ensures AllInOrder(t, ag, Children(t, ag, blocks), h - 1) == AllInOrder(t, ag, blocks, h)
    ensures blocks != [] ==> Children(t, ag, blocks) != []
    decreases |blocks|
  {
    hide BlockAt, Uniform, InOrder, LeavesOf, ChildrenOf;
    if blocks != [] {
      var rest, last := blocks[..|blocks| - 1], blocks[|blocks| - 1];
      NextLevel(t, ag, rest, h);
      NodeOf(t, ag, last, h);
      UniformConcat(t, ag, Children(t, ag, rest), ChildrenOf(BlockAt(t, ag, last)), h - 1);
      InOrderConcat(t, ag, Children(t, ag, rest), ChildrenOf(BlockAt(t, ag, last)), h - 1);
      hide AllUniform;
    }
  }

  lemma {:induction false} WalkIsInOrder(t: Tree, ag: Group, blocks: seq<nat>, h: nat, left: nat)
    requires Headed(ag) && AllUniform(t, ag, blocks, h) && blocks != []
    ensures Walk(t, ag, blocks, left) == if h < left then Ok(AllInOrder(t, ag, blocks, h)) else Err(Corrupt)
    decreases left
  {
    hide Leaves, Children, AllInOrder, AllUniform, ReadError;
    if h == 0 {
      LastLevel(t, ag, blocks);
      AfterTwice(Leaves(t, ag, blocks), [], Ok([]));
    } else {
      NextLevel(t, ag, blocks, h);
      if left > 0 {
        WalkIsInOrder(t, ag, Children(t, ag, blocks), h - 1, left - 1);
        AfterTwice([], [], Walk(t, ag, Children(t, ag, blocks), left - 1));
      }
    }
  }

  lemma OneTree(t: Tree, ag: Group, root: nat, h: nat)
    requires Headed(ag)
    ensures AllInOrder(t, ag, [root], h) == InOrder(t, ag, root, h)
  {
    hide InOrder;
    assert [root][..0] == [];
  }

  /** A tree of up to sixteen levels is dumped left to right; a deeper one is corrupt. */
  lemma DumpIsInOrder(t: Tree, ag: Group, root: nat, h: nat)
    requires Headed(ag) && Uniform(t, ag, root, h)
    ensures Walk(t, ag, [root], 16) == if h + 1 <= 16 then Ok(InOrder(t, ag, root, h)) else Err(Corrupt)
  {
    hide InOrder, Walk, Uniform, BlockAt;
    WalkIsInOrder(t, ag, [root], h, MAX_DEPTH);
    OneTree(t, ag, root, h);
  }

  /** A root outside the group, or another tree's, has no records; one the device refuses is its error. */
  lemma RootInBytes(t: Tree, ag: Group, root: nat)
    requires Headed(ag)
    ensures root >= |ag| ==> Walk(t, ag, [root], 16) == Ok([])
    ensures root < |ag| && ag[root].Err? ==> Walk(t, ag, [root], 16) == Err(ag[root].error)
    ensures root < |ag| && ag[root].Ok? && Be32(ag[root].value, 0) != t.magic ==> Walk(t, ag, [root], 16) == Ok([])
  {
    hide DecodeBlock, Be32, Walk, BlockAt;
    RootIs(t, ag, root);
    OneBlock(t, ag, root, 16);
  }

  lemma RootIs(t: Tree, ag: Group, root: nat)
    requires Headed(ag)
    ensures root >= |ag| ==> BlockAt(t, ag, root) == Other
    ensures root < |ag| && ag[root].Err? ==> BlockAt(t, ag, root) == Unread(ag[root].error)
    ensures root < |ag| && ag[root].Ok? && Be32(ag[root].value, 0) != t.magic ==> BlockAt(t, ag, root) == Other
  {
    hide Be32;
  }

  lemma OneBlock(t: Tree, ag: Group, root: nat, left: nat)
    requires Headed(ag) && left > 0
    ensures BlockAt(t, ag, root) == Other ==> Walk(t, ag, [root], left) == Ok([])
    ensures BlockAt(t, ag, root).Unread? ==> Walk(t, ag, [root], left) == Err(BlockAt(t, ag, root).error)
  {
    hide BlockAt;
    assert [root][..0] == [];
    assert ReadError(t, ag, []) == None;
    assert ReadError(t, ag, [root]) ==
           if BlockAt(t, ag, root).Unread? then Some(BlockAt(t, ag, root).error) else None;
    assert Leaves(t, ag, [root]) == [] + LeavesOf(BlockAt(t, ag, root));
    assert Children(t, ag, [root]) == [] + ChildrenOf(BlockAt(t, ag, root));
    assert BlockAt(t, ag, root) == Other ==> Walk(t, ag, Children(t, ag, [root]), left - 1) == Ok([]);
  }

  // ---------------------------------------------------------------------------------------
  // Any contents.

  /** `path` follows pointers of this tree's nodes. */
  predicate Path(t: Tree, ag: Group, path: seq<nat>)
    requires Headed(ag)
  {
    path != [] && forall i :: 0 <= i < |path| - 1 ==> path[i + 1] in ChildrenOf(BlockAt(t, ag, path[i]))
  }

  lemma {:induction false} ChildrenHave(t: Tree, ag: Group, blocks: seq<nat>, b: nat, c: nat)
    requires Headed(ag) && b in blocks && c in ChildrenOf(BlockAt(t, ag, b))
    ensures c in Children(t, ag, blocks)
    decreases |blocks|
  {
    hide BlockAt, ChildrenOf;
    if b != blocks[|blocks| - 1] {
      ChildrenHave(t, ag, blocks[..|blocks| - 1], b, c);
    }
  }

  lemma {:induction false} ParentOf(t: Tree, ag: Group, blocks: seq<nat>, c: nat) returns (b: nat)
    requires Headed(ag) && c in Children(t, ag, blocks)
    ensures b in blocks && c in ChildrenOf(BlockAt(t, ag, b))
    decreases |blocks|
  {
    hide BlockAt, ChildrenOf;
    if c in ChildrenOf(BlockAt(t, ag, blocks[|blocks| - 1])) {
      b := blocks[|blocks| - 1];
    } else {
      b := ParentOf(t, ag, blocks[..|blocks| - 1], c);
    }
  }

  /** A path the walk cannot get past: one level too long, or to a block the device refuses. */
  predicate DeadEnd(t: Tree, ag: Group, path: seq<nat>, left: nat)
    requires Headed(ag)
  {
    && Path(t, ag, path) && |path| <= left + 1
    && (|path| == left + 1 || BlockAt(t, ag, path[|path| - 1]).Unread?)
  }

  lemma {:induction false} UnreadIsSeen(t: Tree, ag: Group, blocks: seq<nat>, b: nat)
    requires Headed(ag) && b in blocks && BlockAt(t, ag, b).Unread?
    ensures ReadError(t, ag, blocks).Some?
    decreases |blocks|
  {
    hide BlockAt;
    if b != blocks[|blocks| - 1] {
      UnreadIsSeen(t, ag, blocks[..|blocks| - 1], b);
    }
  }

  lemma {:induction false} SeenIsUnread(t: Tree, ag: Group, blocks: seq<nat>) returns (b: nat)
    requires Headed(ag) && ReadError(t, ag, blocks).Some?
    ensures b in blocks && BlockAt(t, ag, b) == Unread(ReadError(t, ag, blocks).value)
    decreases |blocks|
  {
    hide BlockAt;
    if ReadError(t, ag, blocks[..|blocks| - 1]).Some? {
      b := SeenIsUnread(t, ag, blocks[..|blocks| - 1]);
    } else {
      b := blocks[|blocks| - 1];
    }
  }

  lemma TailIsPath(t: Tree, ag: Group, path: seq<nat>)
    requires Headed(ag) && Path(t, ag, path) && |path| > 1
    ensures Path(t, ag, path[1..])
  {
    hide BlockAt, ChildrenOf;
    forall i | 0 <= i < |path| - 2
      ensures path[1..][i + 1] in ChildrenOf(BlockAt(t, ag, path[1..][i]))
    {
      assert path[(i + 1) + 1] in ChildrenOf(BlockAt(t, ag, path[i + 1]));
    }
  }

  lemma {:induction false} WalkFails(t: Tree, ag: Group, blocks: seq<nat>, left: nat, path: seq<nat>)
    requires Headed(ag) && DeadEnd(t, ag, path, left) && path[0] in blocks
    ensures Walk(t, ag, blocks, left).Err?
    decreases left
  {
    hide BlockAt, ChildrenOf, Leaves, Children, ReadError;
    if |path| == 1 {
      if BlockAt(t, ag, path[0]).Unread? {
        UnreadIsSeen(t, ag, blocks, path[0]);
      }
    } else if left > 0 {
      assert path[0 + 1] in ChildrenOf(BlockAt(t, ag, path[0]));
      ChildrenHave(t, ag, blocks, path[0], path[1]);
      TailIsPath(t, ag, path);
      WalkFails(t, ag, Children(t, ag, blocks), left - 1, path[1..]);
    }
  }

  lemma {:induction false} FailedWalk(t: Tree, ag: Group, blocks: seq<nat>, left: nat) returns (path: seq<nat>)
    requires Headed(ag) && Walk(t, ag, blocks, left).Err?
    ensures DeadEnd(t, ag, path, left) && path[0] in blocks
    ensures var e := Walk(t, ag, blocks, left).error;
            (e == Corrupt && |path| == left + 1) || BlockAt(t, ag, path[|path| - 1]) == Unread(e)
    decreases left
  {
    hide BlockAt, ChildrenOf, Leaves, Children, ReadError;
    if ReadError(t, ag, blocks).Some? {
      var b := SeenIsUnread(t, ag, blocks);
      path := [b];
    } else if left == 0 {
      path := [blocks[0]];
    } else {
      var rest := FailedWalk(t, ag, Children(t, ag, blocks), left - 1);
      var b := ParentOf(t, ag, blocks, rest[0]);
      path := [b] + rest;
      forall i | 0 <= i < |path| - 1
        ensures path[i + 1] in ChildrenOf(BlockAt(t, ag, path[i]))
      {
        if i > 0 {
          assert rest[(i - 1) + 1] in ChildrenOf(BlockAt(t, ag, rest[i - 1]));
        }
      }
    }
  }

  /**
   Whatever the blocks hold, the walk is refused exactly when pointers lead on seventeen levels
   deep, or within them to a block the device refuses.
   */
  lemma CorruptIsDeep(t: Tree, ag: Group, root: nat)
    requires Headed(ag)
    ensures var r := Walk(t, ag, [root], 16);
            && (r.Err? <==> exists path :: DeadEnd(t, ag, path, 16) && path[0] == root)
            && (r.Err? && Readable(ag) ==> r.error == Corrupt)
  {
    if Walk(t, ag, [root], MAX_DEPTH).Err? {
      var path := FailedWalk(t, ag, [root], MAX_DEPTH);
    }
    hide Path, Walk, BlockAt;
    if path :| DeadEnd(t, ag, path, MAX_DEPTH) && path[0] == root {
      WalkFails(t, ag, [root], MAX_DEPTH, path);
    }
  }

  lemma RoundAgain(i: nat, n: pos)
    ensures (i + 1) % n == if i % n + 1 == n then 0 else i % n + 1
  {
    if i % n + 1 == n {
      DivModUnique(i + 1, n, i / n + 1, 0);
    } else {
      DivModUnique(i + 1, n, i / n, i % n + 1);
    }
  }

  /** Going round a cycle, a path of any length. */
  lemma Unrolled(t: Tree, ag: Group, cycle: seq<nat>, len: pos) returns (path: seq<nat>)
    requires Headed(ag) && Path(t, ag, cycle) && |cycle| > 1 && cycle[0] == cycle[|cycle| - 1]
    ensures Path(t, ag, path) && |path| == len && path[0] == cycle[0]
  {
    hide BlockAt, ChildrenOf;
    var n := |cycle| - 1;
    path := seq(len, i requires 0 <= i => cycle[i % n]);
    forall i | 0 <= i < |path| - 1
      ensures path[i + 1] in ChildrenOf(BlockAt(t, ag, path[i]))
    {
      assert cycle[i % n + 1] in ChildrenOf(BlockAt(t, ag, cycle[i % n]));
      RoundAgain(i, n);
    }
  }

  /** So a block below itself is always found out. */
  lemma CycleIsCorrupt(t: Tree, ag: Group, cycle: seq<nat>)
    requires Headed(ag) && Path(t, ag, cycle) && |cycle| > 1 && cycle[0] == cycle[|cycle| - 1]
    ensures Walk(t, ag, [cycle[0]], 16).Err?
    ensures Readable(ag) ==> Walk(t, ag, [cycle[0]], 16) == Err(Corrupt)
  {
    hide Walk, BlockAt, Path;
    var path := Unrolled(t, ag, cycle, MAX_DEPTH + 1);
    assert DeadEnd(t, ag, path, MAX_DEPTH);
    CorruptIsDeep(t, ag, cycle[0]);
  }
}
