/** When the first-fit allocator leaves two free blocks side by side.

    free merges a block with its neighbours as it goes, but it decides about the left one
    by a footer flag that an earlier free may have left set, and realloc lists the tail it
    cuts off without looking right. What follows is exactly when each call keeps free
    blocks apart.
 */
module Coalescing {
  import opened Layout
  import opened Format
  import opened FreeLists
  import opened FirstFitHeap

  /** No free block is followed by another. */
  ghost predicate NoAdjacent(L: Blocks) {
    forall a {:trigger Next(L, a)} :: a in L && Next(L, a) in L ==> L[a].used || L[Next(L, a)].used
  }

  /** l is the left neighbour of a, free, but its footer flag says otherwise. */
  ghost predicate StaleAt(L: Blocks, l: int, a: int) {
    l in L && Next(L, l) == a && !L[l].used && L[l].foot
  }

  ghost predicate StaleLeft(L: Blocks, a: int) {
    exists l :: StaleAt(L, l, a)
  }

  /** A realloc that needs `need` bytes elsewhere leaves no stale left neighbour of a behind:
      none is there, the move takes it, or there is nowhere to move to. */
  ghost predicate MoveMerged(h: Heap, a: int, need: int) {
    var k := Fit(h.blocks, h.free, need, 0);
    forall l :: StaleAt(h.blocks, l, a) ==>
      if k < |h.free| then h.free[k] == l else h.Top() + need > h.base + ARENA_SIZE
  }

  ghost predicate FreeRight(L: Blocks, a: int)
    requires a in L
  {
    Next(L, a) in L && !L[Next(L, a)].used
  }

  /** Of two free blocks side by side the right one is a. */
  ghost predicate OnlyBefore(L: Blocks, a: int) {
    forall x {:trigger Next(L, x)} :: x in L && Next(L, x) in L && !L[x].used && !L[Next(L, x)].used ==> Next(L, x) == a
  }

  // --- free ------------------------------------------------------------------------

  lemma ShapedAll(L: Blocks, lo: int, hi: int)
    requires Tiles(L, lo, hi)
    ensures forall x :: x in L ==> L[x].size >= MIN_BLOCK && (L[x].used ==> L[x].foot) && x != 0
  {
    forall x | x in L ensures L[x].size >= MIN_BLOCK && (L[x].used ==> L[x].foot) && x != 0 {
      assert Aligned(x) && L[x].Shaped();
    }
    hide Tiles;
  }

  /** After the right merge the freed block has no free block after it, and its left
      neighbour is what it was. */
  lemma RightMerged(h: Heap, a: int)
    requires h.Valid() && NoAdjacent(h.blocks) && a in h.blocks && h.blocks[a].used
    ensures OnlyBefore(MergeRight(h, a).blocks, a)
    ensures forall l :: StaleAt(MergeRight(h, a).blocks, l, a) <==> StaleAt(h.blocks, l, a)
  {
    hide Tiles, Listed;
    var L, M := h.blocks, MergeRight(h, a).blocks;
    ShapedAll(L, h.Lo(), h.Top());
    var r := Next(L, a);
    forall x | x in M && x != a ensures Next(M, x) == Next(L, x) && M[x] == L[x] {}
    forall l ensures StaleAt(M, l, a) <==> StaleAt(L, l, a) {
      if l == r && l in L { assert Next(L, r) != a; }
    }
    if r in L && !L[r].used {
      assert Next(M, a) == Next(L, r);
    }
  }

  lemma LeftMerged(h: Heap, a: int)
    requires Pending(h, a) && OnlyBefore(h.blocks, a)
    ensures NoAdjacent(MergeLeft(h, a).blocks) <==> !StaleLeft(h.blocks, a)
  {
    hide Listed;
    var L := h.blocks;
    var l := LeftFree(L, a);
    ShapedAll(L, h.Lo(), h.Top());
    if l != 0 {
      Folded(L, h.Lo(), h.Top(), l, a);
      hide Tiles;
      forall x ensures !StaleAt(L, x, a) {
        if x in L && Next(L, x) == a { NextInjective(L, x, l); }
      }
    } else {
      hide Tiles;
      if StaleLeft(L, a) {
        var x :| StaleAt(L, x, a);
        assert Next(L, x) == a;
      }
      forall x | x in L && Next(L, x) == a && !L[x].used ensures StaleAt(L, x, a) {
        assert !FreeOnLeft(L, x, a);
      }
    }
  }

  lemma Folded(L: Blocks, lo: int, hi: int, l: int, a: int)
    requires Tiles(L, lo, hi) && OnlyBefore(L, a) && a in L && FreeOnLeft(L, l, a) && !L[a].used && !L[l].used
    ensures NoAdjacent((L - {a})[l := Block(L[l].size + L[a].size, false, false)])
  {
    var M := (L - {a})[l := Block(L[l].size + L[a].size, false, false)];
    assert Next(M, l) == Next(L, a) > a by { assert L[a].Shaped(); }
    forall x | x in M && Next(M, x) in M ensures M[x].used || M[Next(M, x)].used {
      if x != l {
        assert Next(M, x) == Next(L, x);
        if Next(L, x) == a { NextInjective(L, x, l); }
      }
    }
    hide Tiles;
  }

  /** free keeps free blocks apart exactly when its left neighbour's footer flag can be
      trusted. */
  lemma FreeMerges(h: Heap, a: int)
    requires h.Valid() && NoAdjacent(h.blocks) && a in h.blocks && h.blocks[a].used
    ensures NoAdjacent(Free(h, a + 4).blocks) <==> !StaleLeft(h.blocks, a)
  {
    hide Heap.Valid, Pending, MergeRight, MergeLeft, NoAdjacent, OnlyBefore, StaleAt;
    NotNull(h, a);
    MergeRightPending(h, a);
    RightMerged(h, a);
    LeftMerged(MergeRight(h, a), a);
  }

  lemma NotNull(h: Heap, a: int)
    requires h.Valid() && a in h.blocks
    ensures a + 4 != 0
  {
    hide Listed;
    BlockInside(h.blocks, h.Lo(), h.Top(), a);
  }

  // --- malloc and realloc in place ---------------------------------------------------

  /** No block ends where none starts. */
  lemma EndsAtBlock(L: Blocks, lo: int, hi: int, y: int)
    requires Tiles(L, lo, hi) && y !in L && y < hi
    ensures forall x {:trigger Next(L, x)} :: x in L ==> Next(L, x) != y
  {
  }

  lemma PlacedMerges(L: Blocks, lo: int, hi: int, a: int, need: int)
    requires Tiles(L, lo, hi) && NoAdjacent(L) && a in L && !L[a].used && 0 < need
    requires L[a].size >= need + MIN_BLOCK ==> a + need !in L
    ensures NoAdjacent(Placed(L, a, need))
  {
    hide Tiles;
    BlockInside(L, lo, hi, a);
    if L[a].size >= need + MIN_BLOCK { EndsAtBlock(L, lo, hi, a + need); }
    var M := Placed(L, a, need);
    forall x | x in M && Next(M, x) in M ensures M[x].used || M[Next(M, x)].used {
      if x == a + need && L[a].size >= need + MIN_BLOCK {
        assert Next(M, x) == Next(L, a);
      } else if x != a {
        assert Next(M, x) == Next(L, x);
      }
    }
  }

  lemma CarvedMerges(L: Blocks, lo: int, hi: int, b: Block)
    requires Tiles(L, lo, hi) && NoAdjacent(L) && b.used && b.size > 0
    ensures NoAdjacent(L[hi := b])
  {
    var M := L[hi := b];
    forall x | x in M && Next(M, x) in M ensures M[x].used || M[Next(M, x)].used {
      if x != hi { assert Next(M, x) == Next(L, x); }
    }
    hide Tiles;
  }

  /** malloc never brings free blocks together. */
  lemma MallocMerges(h: Heap, size: int)
    requires h.Valid() && NoAdjacent(h.blocks) && Sane(h.Top(), size)
    ensures NoAdjacent(Malloc(h, size).0.blocks)
  {
    hide Tiles, Listed, Need, NoAdjacent, Placed, Unlisted;
    var need := Need(size);
    var k := Fit(h.blocks, h.free, need, 0);
    if k < |h.free| {
      FreeBlock(h, k);
      PlacedTiles(h.blocks, h.Lo(), h.Top(), h.free[k], need);
      PlacedMerges(h.blocks, h.Lo(), h.Top(), h.free[k], need);
    } else {
      CarvedMerges(h.blocks, h.Lo(), h.Top(), Block(need, true, true));
    }
  }

  /** In-place growth leaves a used block after what it gives back. */
  lemma GrowMerges(h: Heap, a: int, new_: int)
    requires h.Valid() && NoAdjacent(h.blocks) && a in h.blocks && h.blocks[a].used && CanGrow(h, a, new_)
    requires new_ > h.blocks[a].size && new_ % 16 == 0
    ensures NoAdjacent(Grow(h, a, Next(h.blocks, a), new_).blocks)
  {
    hide Tiles, Listed;
    var L, r := h.blocks, Next(h.blocks, a);
    var M := Grow(h, a, r, new_).blocks;
    ShapedAll(L, h.Lo(), h.Top());
    GrowTiles(L, h.Lo(), h.Top(), a, r, new_);
    var split := L[a].size + L[r].size >= new_ + MIN_BLOCK;
    BlockInside(L, h.Lo(), h.Top(), r);
    if split && a + new_ != r { EndsAtBlock(L, h.Lo(), h.Top(), a + new_); }
    assert split ==> Next(M, a + new_) == Next(L, r);
    assert Next(M, a) == if split then a + new_ else Next(L, r);
    forall x | x in M && Next(M, x) in M ensures M[x].used || M[Next(M, x)].used {
      if x != a && !(split && x == a + new_) {
        assert Next(M, x) == Next(L, x);
        assert M[x] == L[x];
      }
    }
  }

  /** Shrinking keeps free blocks apart exactly when nothing is cut off or the right
      neighbour is in use. */
  lemma ShrinkMerges(h: Heap, a: int, new_: int)
    requires h.Valid() && NoAdjacent(h.blocks) && a in h.blocks && h.blocks[a].used
    requires MIN_BLOCK <= new_ <= h.blocks[a].size && new_ % 16 == 0
    ensures NoAdjacent(Shrink(h, a, new_).blocks)
            <==> !(h.blocks[a].size >= new_ + MIN_BLOCK && FreeRight(h.blocks, a))
  {
    hide Tiles, Listed;
    var L, M := h.blocks, Shrink(h, a, new_).blocks;
    if L[a].size >= new_ + MIN_BLOCK {
      BlockInside(L, h.Lo(), h.Top(), a);
      SumOf16(L[a].size, new_);
      SplitTiles(L, h.Lo(), h.Top(), a, Block(new_, true, true), Block(L[a].size - new_, false, false));
      EndsAtBlock(L, h.Lo(), h.Top(), a + new_);
      assert Next(M, a + new_) == Next(L, a) && Next(M, a) == a + new_;
      forall x | x in M && Next(M, x) in M && x != a + new_ ensures M[x].used || M[Next(M, x)].used {
        if x != a {
          assert Next(M, x) == Next(L, x);
        }
      }
    }
  }

  // --- moving ------------------------------------------------------------------------

  /** malloc freshens the left neighbour of a block in use only by handing it out. */
  lemma MallocStale(h: Heap, size: int, a: int, l: int)
    requires h.Valid() && Sane(h.Top(), size) && a in h.blocks && h.blocks[a].used
    ensures StaleAt(Malloc(h, size).0.blocks, l, a) <==> StaleAt(h.blocks, l, a) && Malloc(h, size).1 != l + 4
  {
    hide Tiles, Listed, Need, Unlisted;
    var need := Need(size);
    var k := Fit(h.blocks, h.free, need, 0);
    BlockInside(h.blocks, h.Lo(), h.Top(), a);
    if l in h.blocks { BlockInside(h.blocks, h.Lo(), h.Top(), l); }
    if k < |h.free| {
      FreeBlock(h, k);
      PlacedTiles(h.blocks, h.Lo(), h.Top(), h.free[k], need);
    }
  }

  // --- every operation -----------------------------------------------------------------

  /** What a caller can see beforehand of whether an operation keeps free blocks apart. */
  ghost predicate KeepsMerged(h: Heap, op: Op)
    requires Allowed(h, op)
  {
    match op
    case OpMalloc(_) => true
    case OpFree(p) => p != 0 && p - 4 in Used(h.blocks) ==> !StaleLeft(h.blocks, p - 4)
    case OpRealloc(p, size) =>
      if p == 0 then true
      else if size == 0 then !StaleLeft(h.blocks, p - 4)
      else if NewSize(size) <= h.blocks[p - 4].size then
        !(h.blocks[p - 4].size >= NewSize(size) + MIN_BLOCK && FreeRight(h.blocks, p - 4))
      else if CanGrow(h, p - 4, NewSize(size)) then true
      else MoveMerged(h, p - 4, Need(NewSize(size)))
  }

  lemma BlockAtLeast(h: Heap, a: int)
    requires h.Valid() && a in h.blocks
    ensures h.blocks[a].size >= MIN_BLOCK
  {
    hide Listed;
    BlockInside(h.blocks, h.Lo(), h.Top(), a);
  }

  /** Where malloc goes, told beforehand. */
  lemma MoveTarget(h: Heap, size: int, a: int)
    requires h.Valid() && Sane(h.Top(), size)
    ensures var q := Malloc(h, size).1;
            MoveMerged(h, a, Need(size)) <==> q == 0 || forall l :: StaleAt(h.blocks, l, a) ==> q == l + 4
  {
    hide Tiles, Listed, Need, Unlisted, Placed;
    var k := Fit(h.blocks, h.free, Need(size), 0);
    if k < |h.free| { FreeBlock(h, k); }
    forall l | StaleAt(h.blocks, l, a) ensures l < h.Top() { BlockInside(h.blocks, h.Lo(), h.Top(), l); }
  }

  lemma MoveMerges(h: Heap, p: int, size: int)
    requires h.Valid() && NoAdjacent(h.blocks) && p != 0 && p - 4 in Used(h.blocks) && 0 <= size < SIZE_LIMIT
    requires h.blocks[p - 4].size < NewSize(size)
    ensures NoAdjacent(Move(h, p, NewSize(size)).0.blocks) <==> MoveMerged(h, p - 4, Need(NewSize(size)))
  {
    hide Heap.Valid, Malloc, Free, NewSize, Need, NoAdjacent, StaleAt, MoveMerged;
    var a := p - 4;
    BlockAtLeast(h, a);
    NewSizeRequestable(h, size);
    MallocValid(h, NewSize(size));
    MallocMerges(h, NewSize(size));
    var (g, q) := Malloc(h, NewSize(size));
    MoveTarget(h, NewSize(size), a);
    if q != 0 {
      UsedAt(g.blocks, a);
      FreeMerges(g, a);
      forall l ensures StaleAt(g.blocks, l, a) <==> StaleAt(h.blocks, l, a) && q != l + 4 {
        MallocStale(h, NewSize(size), a, l);
      }
    }
  }

  /** Each operation on a heap whose free blocks are apart leaves them apart exactly under
      its condition. */
  lemma StepMerges(h: Heap, op: Op)
    requires h.Valid() && NoAdjacent(h.blocks) && Allowed(h, op)
    ensures NoAdjacent(Apply(h, op).0.blocks) <==> KeepsMerged(h, op)
  {
    hide Heap.Valid, Malloc, Free, Move, Grow, Shrink, NewSize, Need, NoAdjacent, StaleLeft;
    match op
    case OpMalloc(size) => MallocMerges(h, size);
    case OpFree(p) => FreeAny(h, p);
    case OpRealloc(p, size) =>
      if p == 0 {
        MallocMerges(h, size);
      } else if size == 0 {
        FreeAny(h, p);
      } else if NewSize(size) <= h.blocks[p - 4].size {
        ShrinkMerges(h, p - 4, NewSize(size));
      } else if CanGrow(h, p - 4, NewSize(size)) {
        GrowMerges(h, p - 4, NewSize(size));
      } else {
        MoveMerges(h, p, size);
      }
  }

  lemma FreeAny(h: Heap, p: int)
    requires h.Valid() && NoAdjacent(h.blocks)
    ensures NoAdjacent(Free(h, p).blocks) <==> (p != 0 && p - 4 in Used(h.blocks) ==> !StaleLeft(h.blocks, p - 4))
  {
    hide Heap.Valid, NoAdjacent, StaleLeft, MergeLeft, MergeRight;
    UsedAt(h.blocks, p - 4);
    if p != 0 && p - 4 in Used(h.blocks) {
      FreeMerges(h, p - 4);
    }
  }

  /** Each step of a run meets its condition. */
  ghost predicate AllMerge(h: Heap, ops: seq<Op>)
    requires AllAllowed(h, ops)
    decreases |ops|
  {
    ops == [] || (KeepsMerged(h, ops[0]) && AllMerge(Apply(h, ops[0]).0, ops[1..]))
  }

  /** Free blocks are apart in every state of a run. */
  ghost predicate AlwaysApart(h: Heap, ops: seq<Op>)
    requires AllAllowed(h, ops)
    decreases |ops|
  {
    NoAdjacent(h.blocks) && (ops == [] || AlwaysApart(Apply(h, ops[0]).0, ops[1..]))
  }

  /** Over whole runs: free blocks stay apart throughout exactly when each step meets its
      condition. */
  lemma {:induction false} RunMerges(h: Heap, ops: seq<Op>)
    requires h.Valid() && NoAdjacent(h.blocks) && AllAllowed(h, ops)
    ensures AlwaysApart(h, ops) <==> AllMerge(h, ops)
    decreases |ops|
  {
    hide NoAdjacent, KeepsMerged, Apply, Heap.Valid;
    if ops != [] {
      StepMerges(h, ops[0]);
      StepValid(h, ops[0]);
      if NoAdjacent(Apply(h, ops[0]).0.blocks) {
        RunMerges(Apply(h, ops[0]).0, ops[1..]);
      } else {
        assert !AlwaysApart(Apply(h, ops[0]).0, ops[1..]);
      }
    }
  }

  // --- two runs that bring free blocks together --------------------------------------

  lemma FourSteps(h: Heap, ops: seq<Op>)
    requires |ops| == 4 && Allowed(h, ops[0])
    requires var h1 := Apply(h, ops[0]).0;
             && Allowed(h1, ops[1])
             && var h2 := Apply(h1, ops[1]).0;
                && Allowed(h2, ops[2])
                && Allowed(Apply(h2, ops[2]).0, ops[3])
    ensures AllAllowed(h, ops)
    ensures Run(h, ops) == Apply(Apply(Apply(Apply(h, ops[0]).0, ops[1]).0, ops[2]).0, ops[3]).0
  {
    hide Allowed, Apply;
    var h1 := Apply(h, ops[0]).0;
    var h2 := Apply(h1, ops[1]).0;
    var h3 := Apply(h2, ops[2]).0;
    var h4 := Apply(h3, ops[3]).0;
    assert ops[3..][1..] == [] && Run(h4, []) == h4;
    assert AllAllowed(h3, ops[3..]) && Run(h3, ops[3..]) == h4;
    assert ops[2..][1..] == ops[3..];
    assert AllAllowed(h2, ops[2..]) && Run(h2, ops[2..]) == h4;
    assert ops[1..][1..] == ops[2..];
    assert AllAllowed(h1, ops[1..]) && Run(h1, ops[1..]) == h4;
  }

  /** Two blocks, the second freed: its footer flag stays set under a clear header flag. */
  function SecondFreed(base: int): Heap {
    var a := base + FIRST_PAD;
    Heap(base, map[a := Block(48, true, true), a + 48 := Block(16, false, true)], [a + 48], a + 64)
  }

  lemma TwoCarved(base: int)
    requires ArenaAt(base)
    ensures var a := base + FIRST_PAD;
            var h := Malloc(Empty(base), 40).0;
            && h == Heap(base, map[a := Block(48, true, true)], [], a + 48)
            && Malloc(h, 8).0
               == Heap(base, map[a := Block(48, true, true), a + 48 := Block(16, true, true)], [], a + 64)
  {
    assert Need(40) == 48 && Need(8) == 16;
  }

  lemma SecondFree(base: int)
    requires ArenaAt(base)
    ensures var a := base + FIRST_PAD;
            Free(Heap(base, map[a := Block(48, true, true), a + 48 := Block(16, true, true)], [], a + 64), a + 52)
              == SecondFreed(base)
  {
    var a := base + FIRST_PAD;
    var h := Heap(base, map[a := Block(48, true, true), a + 48 := Block(16, true, true)], [], a + 64);
    var g := MergeRight(h, a + 48);
    assert g.blocks == map[a := Block(48, true, true), a + 48 := Block(16, false, true)];
    assert LeftFree(g.blocks, a + 48) == 0;
  }

  /** Adjacent free blocks are reachable: shrinking a block lists its tail unmerged. */
  lemma AdjacentFree(base: int)
    requires ArenaAt(base)
    ensures var a := base + FIRST_PAD;
            var ops := [OpMalloc(40), OpMalloc(8), OpFree(a + 52), OpRealloc(a + 4, 8)];
            && AllAllowed(Empty(base), ops)
            && var L := Run(Empty(base), ops).blocks;
               && a + 16 in L && a + 48 in L && Next(L, a + 16) == a + 48
               && !L[a + 16].used && !L[a + 48].used && L[a + 48].foot
  {
    hide Malloc, Free, Heap.Valid;
    var a := base + FIRST_PAD;
    var ops := [OpMalloc(40), OpMalloc(8), OpFree(a + 52), OpRealloc(a + 4, 8)];
    TwoCarved(base);
    SecondFree(base);
    assert NewSize(8) == 16 && Need(40) == 48 && Need(8) == 16;
    var h1 := Apply(Empty(base), ops[0]).0;
    var h2 := Apply(h1, ops[1]).0;
    var h3 := Apply(h2, ops[2]).0;
    assert h3 == SecondFreed(base);
    var h4 := Apply(h3, ops[3]).0;
    FourSteps(Empty(base), ops);
  }

  lemma TwoSmall(base: int)
    requires ArenaAt(base)
    ensures var a := base + FIRST_PAD;
            var h := Malloc(Empty(base), 8).0;
            && h == Heap(base, map[a := Block(16, true, true)], [], a + 16)
            && Malloc(h, 8).0
               == Heap(base, map[a := Block(16, true, true), a + 16 := Block(16, true, true)], [], a + 32)
  {
    assert Need(8) == 16;
  }

  lemma LeftThenRight(base: int)
    requires ArenaAt(base)
    ensures var a := base + FIRST_PAD;
            var g := Heap(base, map[a := Block(16, true, true), a + 16 := Block(16, true, true)], [], a + 32);
            var h := Free(g, a + 4);
            && h == Heap(base, map[a := Block(16, false, true), a + 16 := Block(16, true, true)], [a], a + 32)
            && Free(h, a + 20)
               == Heap(base, map[a := Block(16, false, true), a + 16 := Block(16, false, true)], [a + 16, a], a + 32)
  {
    var a := base + FIRST_PAD;
    var h := Heap(base, map[a := Block(16, true, true), a + 16 := Block(16, true, true)], [], a + 32);
    var g := MergeRight(h, a);
    assert g.blocks == map[a := Block(16, false, true), a + 16 := Block(16, true, true)];
    assert LeftFree(g.blocks, a) == 0;
    var i := Free(h, a + 4);
    var j := MergeRight(i, a + 16);
    assert j.blocks == map[a := Block(16, false, true), a + 16 := Block(16, false, true)];
    assert LeftFree(j.blocks, a + 16) == 0;
    assert [a + 16] + [a] == [a + 16, a];
  }

  /** Freeing the left and then the right of two neighbours never merges them. */
  lemma FreeThenFree(base: int)
    requires ArenaAt(base)
    ensures var a := base + FIRST_PAD;
            var ops := [OpMalloc(8), OpMalloc(8), OpFree(a + 4), OpFree(a + 20)];
            && AllAllowed(Empty(base), ops)
            && var L := Run(Empty(base), ops).blocks;
               L == map[a := Block(16, false, true), a + 16 := Block(16, false, true)] && !NoAdjacent(L)
  {
    hide Malloc, Free, Heap.Valid;
    var a := base + FIRST_PAD;
    var ops := [OpMalloc(8), OpMalloc(8), OpFree(a + 4), OpFree(a + 20)];
    TwoSmall(base);
    LeftThenRight(base);
    assert Need(8) == 16;
    var h1 := Apply(Empty(base), ops[0]).0;
    var h2 := Apply(h1, ops[1]).0;
    var h3 := Apply(h2, ops[2]).0;
    var h4 := Apply(h3, ops[3]).0;
    FourSteps(Empty(base), ops);
    assert Next(h4.blocks, a) == a + 16;
  }
}
