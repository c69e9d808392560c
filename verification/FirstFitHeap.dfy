/** src/allocator.c seen as a state machine over blocks and the free list.

    A heap is what the code keeps in memory and in its static variables, minus
    the bytes: the blocks, the free list in link order and the arena break. The
    class FirstFit proves that the code on raw memory takes exactly these steps.
 */
module FirstFitHeap {
  import opened Layout
  import opened Format
  import opened FreeLists

  datatype Heap = Heap(base: int, blocks: Blocks, free: seq<int>, cur: int) {

    function Top(): int {
      Layout.Top(base, cur)
    }

    function Lo(): int {
      base + FIRST_PAD
    }

    ghost predicate Valid() {
      && ArenaAt(base)
      && BreakAt(base, cur)
      && Tiles(blocks, Lo(), Top())
      && Listed(blocks, free)
    }
  }

  function Empty(base: int): (h: Heap)
    requires ArenaAt(base)
    ensures h.Valid()
  {
    Heap(base, map[], [], 0)
  }

  // --- malloc ----------------------------------------------------------------

  /** Hand out the k-th free block, splitting off what is left if that makes a block. */
  function Take(h: Heap, k: nat, need: int): (Heap, int)
    requires k < |h.free| && h.free[k] in h.blocks
  {
    var a := h.free[k];
    (h.(blocks := Placed(h.blocks, a, need),
        free := Unlisted(h.blocks, h.free, k, need)),
     a + 4)
  }

  /** Carve `need` bytes at the break; 0 when the arena is exhausted. */
  function Carve(h: Heap, need: int): (Heap, int)
  {
    var a := h.Top();
    if a + need > h.base + ARENA_SIZE then
      (h.(cur := if h.cur == 0 then h.base else h.cur), 0)
    else
      (h.(blocks := h.blocks[a := Block(need, true, true)], cur := a + need), a + 4)
  }

  function Malloc(h: Heap, size: int): (Heap, int)
    requires 0 <= size < SIZE_LIMIT
  {
    var need := Need(size);
    var k := Fit(h.blocks, h.free, need, 0);
    if k < |h.free| && h.free[k] in h.blocks then Take(h, k, need) else Carve(h, need)
  }

  /** The free list once its k-th block has been put to use. */
  function Unlisted(L: Blocks, free: seq<int>, k: nat, need: int): seq<int>
    requires k < |free| && free[k] in L
  {
    if L[free[k]].size >= need + MIN_BLOCK
    then [free[k] + need] + RemoveAt(free, k)
    else RemoveAt(free, k)
  }

  lemma PlacedListed(L: Blocks, free: seq<int>, k: nat, need: int)
    requires Listed(L, free) && k < |free| && need > 0
    requires L[free[k]].size >= need + MIN_BLOCK ==> free[k] + need !in L
    ensures Listed(Placed(L, free[k], need), Unlisted(L, free, k, need))
    ensures free[k] !in RemoveAt(free, k)
  {
    var a := free[k];
    assert a in L;
    hide Listed, RemoveAt;
    RemoveAtListed(L, free, k);
    if L[a].size >= need + MIN_BLOCK {
      var M := L[a := Block(need, true, true)];
      UseListed(L, RemoveAt(free, k), a, Block(need, true, true));
      assert M - {a + need} == M;
      PushListed(M, RemoveAt(free, k), a + need, Block(L[a].size - need, false, false));
    } else {
      UseListed(L, RemoveAt(free, k), a, Block(L[a].size, true, true));
    }
  }

  lemma FreeBlock(h: Heap, k: nat)
    requires h.Valid() && k < |h.free|
    ensures h.free[k] in h.blocks && !h.blocks[h.free[k]].used && h.free[k] > 0
    ensures Tiles(h.blocks, h.Lo(), h.Top())
  {
  }

  lemma TakeValid(h: Heap, k: nat, need: int)
    requires h.Valid() && k < |h.free|
    requires MIN_BLOCK <= need <= SizeOf(h.blocks, h.free[k]) && need % 16 == 0
    ensures Take(h, k, need).0.Valid()
  {
    hide Tiles, Listed, BreakAt, Placed, Unlisted, RemoveAt;
    FreeBlock(h, k);
    PlacedTiles(h.blocks, h.Lo(), h.Top(), h.free[k], need);
    PlacedListed(h.blocks, h.free, k, need);
  }

  lemma CarveValid(h: Heap, need: int)
    requires h.Valid() && need >= MIN_BLOCK && need % 16 == 0
    ensures Carve(h, need).0.Valid()
    ensures Carve(h, need).0.base == h.base
    ensures Carve(h, need).1 == 0 ==> Carve(h, need).0.blocks == h.blocks && Carve(h, need).0.free == h.free
    ensures Carve(h, need).1 != 0 ==>
              && Carve(h, need).1 == h.Top() + 4 && h.Top() !in Used(h.blocks)
              && Used(Carve(h, need).0.blocks) == Used(h.blocks)[h.Top() := Block(need, true, true)]
  {
    hide Tiles, Listed, Used;
    TopAligned(h.base, h.cur, need);
    ExtendTiles(h.blocks, h.Lo(), h.Top(), Block(need, true, true));
    CarvedUsed(h.blocks, h.Top(), need);
    assert h.blocks - {h.Top()} == h.blocks;
    UseListed(h.blocks, h.free, h.Top(), Block(need, true, true));
  }

  /** g is valid; either p is 0 and no block changed, or p is a new pointer to a
      block of `size` bytes and no other block in use changed. */
  ghost predicate Gained(h: Heap, g: Heap, p: int, size: int) {
    && g.Valid() && g.base == h.base
    && (p == 0 ==> g.blocks == h.blocks && g.free == h.free)
    && (p != 0 ==>
          && p - 4 !in Used(h.blocks)
          && Used(g.blocks) == Used(h.blocks)[p - 4 := Block(size, true, true)])
  }

  /** malloc keeps the heap valid, and when it succeeds adds one block of exactly
      the rounded size to those in use; no other block in use changes. */
  lemma MallocValid(h: Heap, size: int)
    requires h.Valid() && Sane(h.Top(), size)
    ensures Gained(h, Malloc(h, size).0, Malloc(h, size).1, Need(size))
  {
    hide Carve, Used, Heap.Valid, Placed, Unlisted, Need, Fit;
    var need := Need(size);
    var k := Fit(h.blocks, h.free, need, 0);
    if k < |h.free| {
      FreeBlock(h, k);
      TakeValid(h, k, need);
      PlacedTiles(h.blocks, h.Lo(), h.Top(), h.free[k], need);
      PlacedUsed(h.blocks, h.free[k], need);
    } else {
      CarveValid(h, need);
    }
  }

  /** First fit exactly: the block taken is the earliest on the list that is large
      enough, and the break moves only when there is none. */
  lemma MallocIsFirstFit(h: Heap, size: int, k: nat)
    requires h.Valid() && Sane(h.Top(), size) && k <= |h.free|
    requires forall j :: 0 <= j < k ==> h.free[j] in h.blocks && h.blocks[h.free[j]].size < Need(size)
    requires k < |h.free| ==> h.free[k] in h.blocks && h.blocks[h.free[k]].size >= Need(size)
    ensures Malloc(h, size).0.Valid()
    ensures Malloc(h, size) ==
            if k < |h.free|
            then (Heap(h.base, Placed(h.blocks, h.free[k], Need(size)),
                       Unlisted(h.blocks, h.free, k, Need(size)), h.cur),
                  h.free[k] + 4)
            else Carve(h, Need(size))
  {
    hide Heap.Valid, Placed, Unlisted, Carve, Used, RemoveAt;
    MallocValid(h, size);
    assert Fit(h.blocks, h.free, Need(size), 0) == k;
  }

  /** malloc at every 64-bit size. */
  function MallocOutcome(h: Heap, size: int): Outcome
    requires 0 <= size < SIZE_LIMIT
  {
    if Sane(h.Top(), size) then
      var (g, p) := Malloc(h, size);
      Outcome(p, if p == 0 then 0 else SizeOf(g.blocks, p - 4) - OVERHEAD, g.cur)
    else
      var head := At(h.free, 0);
      Wrapped(h.base, h.cur, head, SizeOf(h.blocks, head), Need(size))
  }

  /** Nothing is listed and not even 16 bytes can be carved. */
  predicate Full(h: Heap) {
    h.free == [] && h.Top() + MIN_BLOCK > h.base + ARENA_SIZE
  }

  /** For every size: malloc returns null or a block that holds the request exactly when
      neither the rounding nor the address sum wraps, or the heap is full and the size
      rounds to one smallest block. */
  lemma MallocHolds(h: Heap, size: int)
    requires h.Valid() && 0 <= size < SIZE_LIMIT
    ensures var o := MallocOutcome(h, size);
            o.p == 0 || o.room >= size <==> Requestable(h.Top(), size) || (Need(size) == MIN_BLOCK && Full(h))
  {
    hide Tiles, Listed, Used, Need, Malloc;
    NeedExact(size);
    if Sane(h.Top(), size) {
      MallocValid(h, size);
      var (g, p) := Malloc(h, size);
      if p != 0 { GainedSize(h, g, p, Need(size)); }
      if !Requestable(h.Top(), size) {
        NeedWrapped(size);
        SmallestServed(h, size);
      }
    } else {
      HeadSize(h);
      WrappedHolds(h.base, h.cur, At(h.free, 0), SizeOf(h.blocks, At(h.free, 0)), size);
      NotSmallest(h.Top(), h.base, size);
    }
  }

  /** calloc of such a size: if a pointer comes back, zeroing runs past the arena. */
  lemma CallocOverruns(h: Heap, total: int)
    requires h.Valid() && 0 <= total < SIZE_LIMIT && !Requestable(h.Top(), total)
    ensures var o := MallocOutcome(h, total); o.p == 0 || o.p + total > h.base + ARENA_SIZE
  {
    hide Tiles, Listed, Used, Need, Malloc;
    if Sane(h.Top(), total) {
      MallocValid(h, total);
      var (g, p) := Malloc(h, total);
      if p != 0 {
        UsedAt(g.blocks, p - 4);
        BlockInside(g.blocks, g.Lo(), g.Top(), p - 4);
        TooLarge(h.base, h.Top(), total, p);
      }
    } else {
      var o := MallocOutcome(h, total);
      if h.free != [] {
        FreeBlock(h, 0);
        BlockInside(h.blocks, h.Lo(), h.Top(), h.free[0]);
      }
      TooLarge(h.base, h.Top(), total, o.p);
    }
  }

  /** On the empty heap: a size that rounds to 2^64 - 16 moves the break below the arena,
      one that rounds to 0 returns a pointer to a block of no size. */
  lemma WrappedFirst(base: int)
    requires ArenaAt(base)
    ensures MallocOutcome(Empty(base), SIZE_LIMIT - 24) == Outcome(base + 16, TAG_LIMIT - 16 - OVERHEAD, base - 4)
    ensures MallocOutcome(Empty(base), SIZE_LIMIT - 8) == Outcome(base + 16, 0 - OVERHEAD, base + 12)
  {
    assert Need(SIZE_LIMIT - 24) == SIZE_LIMIT - 16;
    assert Need(SIZE_LIMIT - 8) == 0;
  }

  lemma GainedSize(h: Heap, g: Heap, p: int, size: int)
    requires Gained(h, g, p, size) && p != 0
    ensures SizeOf(g.blocks, p - 4) == size
  {
    UsedAt(g.blocks, p - 4);
  }

  lemma HeadSize(h: Heap)
    requires h.Valid()
    ensures var head := At(h.free, 0);
            head >= 0 && SizeOf(h.blocks, head) < TAG_LIMIT && (head != 0 ==> head in h.blocks)
  {
    var head := At(h.free, 0);
    if head in h.blocks {
      SizeFitsTag(h.blocks, h.base, h.Top(), head);
    }
    hide Tiles;
  }

  /** A smallest block is refused only by a full heap. */
  lemma SmallestServed(h: Heap, size: int)
    requires h.Valid() && Sane(h.Top(), size) && Need(size) == MIN_BLOCK
    ensures Malloc(h, size).1 == 0 <==> Full(h)
  {
    hide Tiles, Listed, Need;
    if h.free != [] {
      FreeBlock(h, 0);
      BlockInside(h.blocks, h.Lo(), h.Top(), h.free[0]);
      assert Fit(h.blocks, h.free, MIN_BLOCK, 0) == 0;
    }
  }

  /** A first malloc of 4 GiB fails and leaves the break at the base. */
  lemma FailedFirst(base: int)
    requires ArenaAt(base)
    ensures Sane(Empty(base).Top(), TAG_LIMIT) && Malloc(Empty(base), TAG_LIMIT) == (Empty(base).(cur := base), 0)
  {
    assert Need(TAG_LIMIT) == TAG_LIMIT + 16;
  }

  // --- free ------------------------------------------------------------------

  /** The list without its first occurrence of x. */
  function Without(free: seq<int>, x: int): (r: seq<int>)
  {
    if free == [] then []
    else if free[0] == x then free[1..]
    else [free[0]] + Without(free[1..], x)
  }

  lemma {:induction false} WithoutAt(free: seq<int>, k: nat)
    requires k < |free| && forall i :: 0 <= i < k ==> free[i] != free[k]
    ensures Without(free, free[k]) == RemoveAt(free, k)
  {
    if k == 0 {
      assert free[1..] == RemoveAt(free, 0);
    } else {
      WithoutAt(free[1..], k - 1);
      assert [free[0]] + RemoveAt(free[1..], k - 1) == RemoveAt(free, k);
    }
  }

  lemma WithoutListed(L: Blocks, free: seq<int>, x: int)
    requires Listed(L, free) && x in L && !L[x].used
    ensures Listed(L - {x}, Without(free, x))
  {
    var k :| 0 <= k < |free| && free[k] == x;
    WithoutAt(free, k);
    RemoveAtListed(L, free, k);
  }

  /** First half of free: clear the header flag, then absorb a free right neighbour. */
  function MergeRight(h: Heap, a: int): Heap
    requires a in h.blocks
  {
    var b := h.blocks[a];
    var r := Next(h.blocks, a);
    if r in h.blocks && !h.blocks[r].used then
      h.(blocks := (h.blocks - {r})[a := Block(b.size + h.blocks[r].size, false, false)],
         free := Without(h.free, r))
    else
      h.(blocks := h.blocks[a := b.(used := false)])
  }

  /** l is the left neighbour of a and its footer flag is clear. */
  predicate FreeOnLeft(L: Blocks, l: int, a: int) {
    l in L && Next(L, l) == a && !L[l].foot
  }

  /** The left neighbour that free would absorb; 0 if there is none. */
  ghost function LeftFree(L: Blocks, a: int): (l: int)
    ensures l != 0 ==> FreeOnLeft(L, l, a)
    ensures l == 0 ==> forall x :: FreeOnLeft(L, x, a) ==> x == 0
  {
    if l :| l != 0 && FreeOnLeft(L, l, a) then l else 0
  }

  /** Second half: fold the block into a free left neighbour, or list it. */
  ghost function MergeLeft(h: Heap, a: int): Heap
    requires a in h.blocks
  {
    var l := LeftFree(h.blocks, a);
    if l != 0 then
      h.(blocks := (h.blocks - {a})[l := Block(h.blocks[l].size + h.blocks[a].size, false, false)],
         free := [l] + Without(h.free, l))
    else
      h.(free := [a] + h.free)
  }

  /** free: a null pointer or a block that is already free is left alone. */
  ghost function Free(h: Heap, p: int): Heap
  {
    if p == 0 || p - 4 !in h.blocks || !h.blocks[p - 4].used then h
    else MergeLeft(MergeRight(h, p - 4), p - 4)
  }

  /** A heap whose block a is free but not yet on the list. */
  ghost predicate Pending(h: Heap, a: int) {
    && ArenaAt(h.base)
    && BreakAt(h.base, h.cur)
    && Tiles(h.blocks, h.Lo(), h.Top())
    && a in h.blocks && !h.blocks[a].used
    && Listed(h.blocks - {a}, h.free)
  }

  lemma MergeRightUsed(h: Heap, a: int)
    requires a in h.blocks && h.blocks[a].used
    ensures Used(MergeRight(h, a).blocks) == Used(h.blocks) - {a}
  {
  }

  lemma MergeRightPending(h: Heap, a: int)
    requires h.Valid() && a in h.blocks && h.blocks[a].used
    ensures Pending(MergeRight(h, a), a)
    ensures MergeRight(h, a).base == h.base && MergeRight(h, a).cur == h.cur
    ensures a in MergeRight(h, a).blocks && !MergeRight(h, a).blocks[a].used
  {
    hide Tiles, Listed, BreakAt, ArenaAt;
    var b := h.blocks[a];
    var r := Next(h.blocks, a);
    if r in h.blocks && !h.blocks[r].used {
      var whole := Block(b.size + h.blocks[r].size, false, false);
      MergeTiles(h.blocks, h.Lo(), h.Top(), a, r, whole);
      WithoutListed(h.blocks, h.free, r);
      DropUsed(h.blocks - {r}, Without(h.free, r), a, whole);
    } else {
      RetagTiles(h.blocks, h.Lo(), h.Top(), a, b.(used := false));
      DropUsed(h.blocks, h.free, a, b.(used := false));
    }
  }

  lemma MergeLeftValid(h: Heap, a: int)
    requires Pending(h, a)
    ensures MergeLeft(h, a).Valid()
  {
    hide Tiles, Listed;
    var l := LeftFree(h.blocks, a);
    if l != 0 {
      var whole := Block(h.blocks[l].size + h.blocks[a].size, false, false);
      BlockInside(h.blocks, h.Lo(), h.Top(), l);
      MergeTiles(h.blocks, h.Lo(), h.Top(), l, a, whole);
      WithoutListed(h.blocks - {a}, h.free, l);
      PushListed(h.blocks - {a}, Without(h.free, l), l, whole);
    } else {
      PushListed(h.blocks, h.free, a, h.blocks[a]);
      assert h.blocks[a := h.blocks[a]] == h.blocks;
    }
  }

  lemma MergeLeftUsed(h: Heap, a: int)
    requires Pending(h, a)
    ensures MergeLeft(h, a).base == h.base && MergeLeft(h, a).cur == h.cur
    ensures Used(MergeLeft(h, a).blocks) == Used(h.blocks)
  {
    if LeftFree(h.blocks, a) != 0 {
      assert h.blocks[LeftFree(h.blocks, a)].Shaped();
    }
  }

  lemma UsedMinus(h: Heap, p: int)
    requires h.Valid()
    requires p == 0 || p - 4 !in h.blocks || !h.blocks[p - 4].used
    ensures Used(h.blocks) - {p - 4} == Used(h.blocks)
  {
  }

  /** free keeps the heap valid and takes exactly the given block out of use. */
  lemma FreeValid(h: Heap, p: int)
    requires h.Valid()
    ensures Free(h, p).Valid()
    ensures Free(h, p).base == h.base && Free(h, p).cur == h.cur
    ensures Used(Free(h, p).blocks) == Used(h.blocks) - {p - 4}
  {
    hide MergeLeft, MergeRight, Used, Heap.Valid, Pending;
    if p == 0 || p - 4 !in h.blocks || !h.blocks[p - 4].used {
      UsedMinus(h, p);
    } else {
      MergeRightPending(h, p - 4);
      MergeRightUsed(h, p - 4);
      MergeLeftValid(MergeRight(h, p - 4), p - 4);
      MergeLeftUsed(MergeRight(h, p - 4), p - 4);
    }
  }

  // --- realloc ---------------------------------------------------------------

  /** `(size + 8 + 15) & ~15u`: the mask is 32 bits wide, so the sum is cut to 32 bits. */
  function NewSize(size: int): (r: int)
    requires 0 <= size < SIZE_LIMIT
    ensures r % 16 == 0 && 0 <= r < TAG_LIMIT
  {
    RoundDown16((size + 23) % TAG_LIMIT)
  }

  /** Absorb the free right neighbour r and split off what is left. */
  function Grow(h: Heap, a: int, r: int, new_: int): Heap
    requires a in h.blocks && r in h.blocks
  {
    var combined := h.blocks[a].size + h.blocks[r].size;
    if combined >= new_ + MIN_BLOCK then
      h.(blocks := (h.blocks - {r})[a := Block(new_, true, true)][a + new_ := Block(combined - new_, false, false)],
         free := [a + new_] + Without(h.free, r))
    else
      h.(blocks := (h.blocks - {r})[a := Block(combined, true, true)],
         free := Without(h.free, r))
  }

  /** Cut the tail off block a and list it, unmerged. */
  function Shrink(h: Heap, a: int, new_: int): Heap
    requires a in h.blocks
  {
    var leftover := h.blocks[a].size - new_;
    if leftover >= MIN_BLOCK then
      h.(blocks := h.blocks[a := Block(new_, true, true)][a + new_ := Block(leftover, false, false)],
         free := [a + new_] + h.free)
    else h
  }

  /** Whether block a can grow to new_ bytes over its right neighbour. */
  predicate CanGrow(h: Heap, a: int, new_: int)
    requires a in h.blocks
  {
    var r := Next(h.blocks, a);
    r in h.blocks && !h.blocks[r].used && h.blocks[a].size + h.blocks[r].size >= new_
  }

  ghost function Move(h: Heap, p: int, new_: int): (Heap, int)
    requires 0 <= new_ < SIZE_LIMIT
  {
    var (g, q) := Malloc(h, new_);
    if q == 0 then (g, 0) else (Free(g, p), q)
  }

  ghost function Realloc(h: Heap, p: int, size: int): (Heap, int)
    requires 0 <= size < SIZE_LIMIT
    requires p == 0 || p - 4 in h.blocks
  {
    if p == 0 then Malloc(h, size)
    else if size == 0 then (Free(h, p), 0)
    else
      var a, new_ := p - 4, NewSize(size);
      if new_ <= h.blocks[a].size then (Shrink(h, a, new_), p)
      else if CanGrow(h, a, new_) then (Grow(h, a, Next(h.blocks, a), new_), p)
      else Move(h, p, new_)
  }

  lemma ReallocIs(h: Heap, p: int, size: int)
    requires 0 <= size < SIZE_LIMIT && (p == 0 || p - 4 in h.blocks)
    ensures p == 0 ==> Realloc(h, p, size) == Malloc(h, size)
    ensures p != 0 && size == 0 ==> Realloc(h, p, size) == (Free(h, p), 0)
  {
  }

  lemma GrowTiles(L: Blocks, lo: int, hi: int, a: int, r: int, new_: int)
    requires Tiles(L, lo, hi) && a in L && r in L && r == Next(L, a)
    requires L[a].size < new_ <= L[a].size + L[r].size && new_ % 16 == 0
    ensures var combined := L[a].size + L[r].size;
            && (combined >= new_ + MIN_BLOCK ==>
                  && a + new_ !in L - {r}
                  && Tiles((L - {r})[a := Block(new_, true, true)][a + new_ := Block(combined - new_, false, false)],
                     lo, hi))
            && (combined < new_ + MIN_BLOCK ==>
                  combined == new_ && Tiles((L - {r})[a := Block(combined, true, true)], lo, hi))
  {
    hide Tiles;
    var combined := L[a].size + L[r].size;
    BlockInside(L, lo, hi, a);
    BlockInside(L, lo, hi, r);
    SumOf16(L[a].size, L[r].size);
    SumOf16(combined, new_);
    var whole, front, back := Block(combined, true, true), Block(new_, true, true),
      Block(combined - new_, false, false);
    MergeTiles(L, lo, hi, a, r, whole);
    if combined >= new_ + MIN_BLOCK {
      SplitTiles((L - {r})[a := whole], lo, hi, a, front, back);
      assert (L - {r})[a := whole][a := front][a + new_ := back] == (L - {r})[a := front][a + new_ := back];
    }
  }

  lemma GrowUsed(h: Heap, a: int, r: int, new_: int)
    requires a in h.blocks && r in h.blocks && a != r && !h.blocks[r].used && new_ > 0
    requires var combined := h.blocks[a].size + h.blocks[r].size;
             combined == new_ || (combined >= new_ + MIN_BLOCK && a + new_ !in h.blocks - {r})
    ensures Used(Grow(h, a, r, new_).blocks) == Used(h.blocks)[a := Block(new_, true, true)]
  {
  }

  lemma GrowValid(h: Heap, a: int, new_: int)
    requires h.Valid() && a in h.blocks && h.blocks[a].used && CanGrow(h, a, new_)
    requires new_ > h.blocks[a].size && new_ % 16 == 0
    ensures var g := Grow(h, a, Next(h.blocks, a), new_);
            && g.Valid() && g.base == h.base
            && Used(g.blocks) == Used(h.blocks)[a := Block(new_, true, true)]
  {
    hide Tiles, Listed, BreakAt, Used, ArenaAt;
    var r := Next(h.blocks, a);
    var combined := h.blocks[a].size + h.blocks[r].size;
    var M := (h.blocks - {r})[a := Block(new_, true, true)];
    BlockInside(h.blocks, h.Lo(), h.Top(), a);
    GrowTiles(h.blocks, h.Lo(), h.Top(), a, r, new_);
    GrowUsed(h, a, r, new_);
    WithoutListed(h.blocks, h.free, r);
    DropUsed(h.blocks - {r}, Without(h.free, r), a, Block(new_, true, true));
    UseListed(h.blocks - {r}, Without(h.free, r), a, Block(new_, true, true)) by {
      assert (h.blocks - {r})[a := Block(new_, true, true)] - {a} == h.blocks - {r} - {a};
    }
    if combined >= new_ + MIN_BLOCK {
      assert M - {a + new_} == M;
      PushListed(M, Without(h.free, r), a + new_, Block(combined - new_, false, false));
    }
  }

  lemma ShrinkValid(h: Heap, a: int, new_: int)
    requires h.Valid() && a in h.blocks && h.blocks[a].used
    requires MIN_BLOCK <= new_ <= h.blocks[a].size && new_ % 16 == 0
    ensures Shrink(h, a, new_).Valid() && Shrink(h, a, new_).base == h.base
    ensures Used(Shrink(h, a, new_).blocks) == Used(h.blocks)[a := Block(new_, true, true)]
  {
    var size := h.blocks[a].size;
    assert h.blocks[a].Shaped();
    SumOf16(size, new_);
    if size >= new_ + MIN_BLOCK {
      var back := Block(size - new_, false, false);
      SplitTiles(h.blocks, h.Lo(), h.Top(), a, Block(new_, true, true), back);
      hide Tiles, Aligned;
      var L := h.blocks[a := Block(new_, true, true)];
      assert L - {a + new_} == L;
      PushListed(L, h.free, a + new_, back);
    }
  }

  lemma NewSizeRequestable(h: Heap, size: int)
    requires h.Valid() && 0 <= size < SIZE_LIMIT && NewSize(size) >= MIN_BLOCK
    ensures Requestable(h.Top(), NewSize(size))
    ensures Need(NewSize(size)) == NewSize(size) + 16
  {
    SumOf16(NewSize(size), 16);
  }

  /** g is valid; either q is 0 and no block changed, or q is p and its block is
      now `inPlace` bytes, or q is a new pointer to a block of `moved` bytes and p's
      block is no longer in use. No other block in use changed. */
  ghost predicate Resized(h: Heap, p: int, g: Heap, q: int, inPlace: int, moved: int) {
    && g.Valid() && g.base == h.base
    && (q == 0 ==> g.blocks == h.blocks && g.free == h.free)
    && (q == p ==> Used(g.blocks) == Used(h.blocks)[p - 4 := Block(inPlace, true, true)])
    && (q != 0 && q != p ==>
          && q - 4 !in Used(h.blocks)
          && Used(g.blocks) == (Used(h.blocks) - {p - 4})[q - 4 := Block(moved, true, true)])
  }

  lemma MoveValid(h: Heap, p: int, size: int)
    requires h.Valid() && 0 <= size < SIZE_LIMIT && NewSize(size) >= MIN_BLOCK
    requires p != 0 && p - 4 in Used(h.blocks)
    ensures Resized(h, p, Move(h, p, NewSize(size)).0, Move(h, p, NewSize(size)).1, 0, NewSize(size) + 16)
    ensures Move(h, p, NewSize(size)).1 != p
  {
    hide Malloc, Used, Heap.Valid, Free, Need, NewSize, Requestable;
    NewSizeRequestable(h, size);
    MallocValid(h, NewSize(size));
    var (g, q) := Malloc(h, NewSize(size));
    if q != 0 {
      FreeValid(g, p);
    }
  }

  /** realloc of a live pointer to a size whose masked form makes a block. In
      place it leaves exactly the masked size; moved, 16 bytes more. */
  lemma ReallocValid(h: Heap, p: int, size: int)
    requires h.Valid() && 0 < size < SIZE_LIMIT && NewSize(size) >= MIN_BLOCK
    requires p != 0 && p - 4 in Used(h.blocks)
    ensures Resized(h, p, Realloc(h, p, size).0, Realloc(h, p, size).1, NewSize(size), NewSize(size) + 16)
  {
    hide Heap.Valid, Move, Grow, Shrink, NewSize, CanGrow;
    var a, new_ := p - 4, NewSize(size);
    if new_ <= h.blocks[a].size {
      ShrinkValid(h, a, new_);
    } else if CanGrow(h, a, new_) {
      GrowValid(h, a, new_);
    } else {
      MoveValid(h, p, size);
    }
  }

  /** Where the 32-bit mask bites: the block realloc aims for holds the request
      exactly when the request is below 2^32 - 23. */
  lemma NewSizeExact(size: int)
    requires 0 <= size < SIZE_LIMIT
    ensures NewSize(size) - OVERHEAD >= size <==> size + 23 < TAG_LIMIT
    ensures NewSize(size) + 16 - OVERHEAD >= size <==> size + 23 < TAG_LIMIT
  {
    var q := (size + 23) / TAG_LIMIT;
    assert (size + 23) % TAG_LIMIT == size + 23 - q * TAG_LIMIT;
    if q >= 1 {
      assert q * TAG_LIMIT >= TAG_LIMIT;
    }
  }

  /** A block of 16 bytes, reallocated to 4 GiB, comes back as it is: 8 bytes of room. */
  lemma ReallocTooSmall(base: int)
    requires ArenaAt(base)
    ensures var (h, p) := Malloc(Empty(base), 8);
            && Sane(Empty(base).Top(), 8) && p == base + 16 && p - 4 in Used(h.blocks)
            && NewSize(TAG_LIMIT) >= MIN_BLOCK
            && Realloc(h, p, TAG_LIMIT) == (h, p) && SizeOf(h.blocks, p - 4) - OVERHEAD == 8
  {
    assert Need(8) == 16 && NewSize(TAG_LIMIT) == 16;
  }

  // --- whole runs ------------------------------------------------------------

  datatype Op = OpMalloc(size: int) | OpFree(p: int) | OpRealloc(p: int, size: int)

  /** What the client and the size arithmetic must respect. A freed pointer may
      be freed again while its header is still a block of the heap. */
  ghost predicate Allowed(h: Heap, op: Op) {
    match op
    case OpMalloc(size) => Sane(h.Top(), size)
    case OpFree(p) => p == 0 || p - 4 in h.blocks
    case OpRealloc(p, size) =>
      if p == 0 then Sane(h.Top(), size)
      else 0 <= size < SIZE_LIMIT && p - 4 in Used(h.blocks) && (size == 0 || NewSize(size) >= MIN_BLOCK)
  }

  ghost function Apply(h: Heap, op: Op): (Heap, int)
    requires Allowed(h, op)
  {
    match op
    case OpMalloc(size) => Malloc(h, size)
    case OpFree(p) => (Free(h, p), 0)
    case OpRealloc(p, size) => Realloc(h, p, size)
  }

  ghost predicate AllAllowed(h: Heap, ops: seq<Op>)
    decreases |ops|
  {
    ops == [] || (Allowed(h, ops[0]) && AllAllowed(Apply(h, ops[0]).0, ops[1..]))
  }

  ghost function Run(h: Heap, ops: seq<Op>): Heap
    requires AllAllowed(h, ops)
    decreases |ops|
  {
    if ops == [] then h else Run(Apply(h, ops[0]).0, ops[1..])
  }

  lemma StepValid(h: Heap, op: Op)
    requires h.Valid() && Allowed(h, op)
    ensures Apply(h, op).0.Valid() && Apply(h, op).0.base == h.base
  {
    match op
    case OpMalloc(size) =>
      hide Heap.Valid, Malloc;
      MallocValid(h, size);
    case OpFree(p) =>
      hide Heap.Valid, Free;
      FreeValid(h, p);
    case OpRealloc(p, size) =>
      if p == 0 {
        hide Heap.Valid, Malloc;
        MallocValid(h, size);
      } else if size == 0 {
        hide Heap.Valid, Free;
        FreeValid(h, p);
      } else {
        hide Heap.Valid, Realloc;
        ReallocValid(h, p, size);
      }
  }

  /** In every state a run can reach, blocks tile the heap, the free list holds
      exactly the header-free blocks, and a clear footer flag means a free block. */
  lemma {:induction false} RunValid(h: Heap, ops: seq<Op>)
    requires h.Valid() && AllAllowed(h, ops)
    ensures Run(h, ops).Valid() && Run(h, ops).base == h.base
    decreases |ops|
  {
    if ops != [] {
      StepValid(h, ops[0]);
      RunValid(Apply(h, ops[0]).0, ops[1..]);
    }
  }

  /** The same as a run: realloc to 4 GiB returns a block of 16 bytes. */
  lemma TooSmallRun(base: int)
    requires ArenaAt(base)
    ensures var ops := [OpMalloc(8), OpRealloc(base + 16, TAG_LIMIT)];
            && AllAllowed(Empty(base), ops)
            && Apply(Apply(Empty(base), ops[0]).0, ops[1]).1 == base + 16
            && SizeOf(Run(Empty(base), ops).blocks, base + 12) == 16
  {
    hide Malloc, Realloc, Heap.Valid, Need, NewSize;
    ReallocTooSmall(base);
    var ops := [OpMalloc(8), OpRealloc(base + 16, TAG_LIMIT)];
    var h := Apply(Empty(base), ops[0]).0;
    UsedAt(h.blocks, base + 12);
    assert ops[1..][1..] == [];
    assert AllAllowed(h, ops[1..]) && Run(h, ops[1..]) == Run(h, []);
  }

  /** Conservation on every run from the empty heap: used and free bytes add up to
      the arena consumed less the 12 bytes of first padding. */
  lemma RunConserves(base: int, ops: seq<Op>)
    requires ArenaAt(base) && AllAllowed(Empty(base), ops)
    ensures var h := Run(Empty(base), ops);
            h.cur > base ==>
              UsedBytes(h.blocks, h.Lo(), h.cur) + FreeBytes(h.blocks, h.Lo(), h.cur) == h.cur - base - FIRST_PAD
  {
    RunValid(Empty(base), ops);
    var h := Run(Empty(base), ops);
    if h.cur > base {
      BytesConserved(h.blocks, h.Lo(), h.cur, h.Lo());
    }
  }
}
