/** src/segregated_allocator.c seen as a state machine: blocks, 11 size bins and
    the live and peak byte counters. */
module SegregatedHeap {
  import opened Layout
  import opened Format
  import opened FreeLists

  const NUM_BINS: nat := 11

  /** size_to_bin. */
  function Bin(size: int): (b: nat)
    ensures b < NUM_BINS
  {
    if size <= 16 then 0
    else if size <= 32 then 1
    else if size <= 64 then 2
    else if size <= 80 then 3
    else if size <= 96 then 4
    else if size <= 112 then 5
    else if size <= 128 then 6
    else if size <= 256 then 7
    else if size <= 512 then 8
    else if size <= 1024 then 9
    else 10
  }

  /** The bins that hold blocks of one size only. */
  predicate SingleSize(b: nat) {
    b == 0 || b == 1 || b == 3 || b == 4 || b == 5 || b == 6
  }

  lemma SingleSizeBin(x: int, y: int)
    requires x % 16 == 0 && y % 16 == 0 && x >= MIN_BLOCK && y >= MIN_BLOCK
    requires Bin(x) == Bin(y) && SingleSize(Bin(x))
    ensures x == y
  {
  }

  datatype Heap = Heap(base: int, blocks: Blocks, bins: seq<seq<int>>, cur: int, live: int, peak: int) {

    function Top(): int {
      Layout.Top(base, cur)
    }

    function Lo(): int {
      base + FIRST_PAD
    }

    ghost predicate Valid() {
      && ArenaAt(base)
      && BreakAt(base, cur)
      && Tiles(blocks, Lo(), Top())
      && Binned(blocks, bins)
      && live == UsedBytes(blocks, Lo(), Top())
      && live <= peak
    }
  }

  /** The blocks of L whose size belongs to bin b. */
  ghost function OfBin(L: Blocks, b: nat): Blocks {
    map a | a in L && Bin(L[a].size) == b :: L[a]
  }

  /** Each bin lists exactly the free blocks of its sizes, once each. */
  ghost predicate Binned(L: Blocks, bins: seq<seq<int>>) {
    && |bins| == NUM_BINS
    && forall b :: 0 <= b < NUM_BINS ==> Listed(OfBin(L, b), bins[b])
  }

  function Empty(base: int): (h: Heap)
    requires ArenaAt(base)
    ensures h.Valid()
  {
    Heap(base, map[], seq(NUM_BINS, i => []), 0, 0, 0)
  }

  // --- operations ---------------------------------------------------------------

  /** live_add. */
  function LiveAdd(h: Heap, n: int): Heap {
    h.(live := h.live + n, peak := if h.live + n > h.peak then h.live + n else h.peak)
  }

  function Rebinned(L: Blocks, bins: seq<seq<int>>, b: nat, k: nat, need: int): (r: seq<seq<int>>)
    requires |bins| == NUM_BINS && b < NUM_BINS && k < |bins[b]| && bins[b][k] in L
  {
    var a := bins[b][k];
    if L[a].size >= need + MIN_BLOCK
    then PutOn(TakeOff(bins, b, k), Bin(L[a].size - need), a + need)
    else TakeOff(bins, b, k)
  }

  function Take(h: Heap, b: nat, k: nat, need: int): (Heap, int)
    requires |h.bins| == NUM_BINS && b < NUM_BINS && k < |h.bins[b]| && h.bins[b][k] in h.blocks
  {
    var a := h.bins[b][k];
    var size := h.blocks[a].size;
    (LiveAdd(h, if size >= need + MIN_BLOCK then need else size)
       .(blocks := Placed(h.blocks, a, need), bins := Rebinned(h.blocks, h.bins, b, k, need)),
     a + 4)
  }

  function Carve(h: Heap, need: int): (Heap, int)
  {
    var a := h.Top();
    if a + need > h.base + ARENA_SIZE then
      (h.(cur := if h.cur == 0 then h.base else h.cur), 0)
    else
      (LiveAdd(h, need).(blocks := h.blocks[a := Block(need, true, true)], cur := a + need), a + 4)
  }

  function Malloc(h: Heap, size: int): (Heap, int)
    requires 0 <= size < SIZE_LIMIT && |h.bins| == NUM_BINS
  {
    var need := Need(size);
    var b := Bin(need);
    var k := Fit(h.blocks, h.bins[b], need, 0);
    if k < |h.bins[b]| && h.bins[b][k] in h.blocks then Take(h, b, k, need) else Carve(h, need)
  }

  /** free: no merging; the block goes to the front of its bin. */
  function Free(h: Heap, p: int): Heap
    requires |h.bins| == NUM_BINS
  {
    if p == 0 || p - 4 !in h.blocks || !h.blocks[p - 4].used then h
    else
      var b := h.blocks[p - 4];
      h.(blocks := h.blocks[p - 4 := b.(used := false)],
         bins := PutOn(h.bins, Bin(b.size), p - 4),
         live := h.live - b.size)
  }

  function Realloc(h: Heap, p: int, size: int): (r: (Heap, int))
    requires 0 <= size < SIZE_LIMIT && |h.bins| == NUM_BINS
  {
    if p == 0 then Malloc(h, size)
    else if size == 0 then (Free(h, p), 0)
    else
      var (g, q) := Malloc(h, size);
      if q == 0 || |g.bins| != NUM_BINS then (g, 0) else (Free(g, p), q)
  }

  // --- used bytes ---------------------------------------------------------------

  /** Two tilings that agree outside [a, e) differ in used bytes by what they hold there. */
  lemma UsedBytesReplace(L: Blocks, M: Blocks, lo: int, hi: int, a: int, e: int)
    requires Tiles(L, lo, hi) && Tiles(M, lo, hi)
    requires a in L && a in M && a <= e && (e == hi || (e in L && e in M))
    requires forall x :: (x < a || e <= x) ==> (x in L <==> x in M) && (x in L ==> L[x] == M[x])
    ensures UsedBytes(M, lo, hi) - UsedBytes(L, lo, hi) == UsedBytes(M, a, e) - UsedBytes(L, a, e)
  {
    hide Tiles, UsedBytes;
    assert lo in L && lo in M && lo <= a by { LowBlock(L, lo, hi, a); LowBlock(M, lo, hi, a); }
    UsedBytesCut(L, lo, hi, lo, a);
    UsedBytesCut(M, lo, hi, lo, a);
    UsedBytesCut(L, lo, hi, a, e);
    UsedBytesCut(M, lo, hi, a, e);
    UsedBytesSame(L, M, lo, a);
    UsedBytesSame(L, M, e, hi);
  }

  lemma LowBlock(L: Blocks, lo: int, hi: int, a: int)
    requires Tiles(L, lo, hi) && a in L
    ensures lo in L && lo <= a
  {
  }

  lemma PlacedUsedBytes(L: Blocks, lo: int, hi: int, a: int, need: int)
    requires Tiles(L, lo, hi) && a in L && !L[a].used
    requires MIN_BLOCK <= need <= L[a].size && need % 16 == 0
    ensures UsedBytes(Placed(L, a, need), lo, hi) == UsedBytes(L, lo, hi) + need
  {
    hide Tiles, UsedBytes;
    BlockInside(L, lo, hi, a);
    PlacedTiles(L, lo, hi, a, need);
    BoundaryAfter(L, lo, hi, a);
    PlacedSpan(L, a, need);
    UsedBytesReplace(L, Placed(L, a, need), lo, hi, a, Next(L, a));
  }

  lemma PlacedSpan(L: Blocks, a: int, need: int)
    requires a in L && !L[a].used && 0 < need <= L[a].size
    requires L[a].size < need + MIN_BLOCK ==> L[a].size == need
    ensures UsedBytes(L, a, Next(L, a)) == 0 && UsedBytes(Placed(L, a, need), a, Next(L, a)) == need
  {
    var M, e := Placed(L, a, need), Next(L, a);
    assert UsedBytes(L, e, e) == 0 && UsedBytes(M, e, e) == 0;
    if L[a].size >= need + MIN_BLOCK {
      assert Next(M, a) == a + need && Next(M, a + need) == e;
      assert UsedBytes(M, a + need, e) == 0;
    }
  }


  lemma BoundaryAfter(L: Blocks, lo: int, hi: int, a: int)
    requires Tiles(L, lo, hi) && a in L
    ensures a < Next(L, a) <= hi && (Next(L, a) == hi || Next(L, a) in L)
    ensures forall x :: a < x < Next(L, a) ==> x !in L
  {
    assert L[a].Shaped();
    forall x | a < x < Next(L, a) ensures x !in L {
      if x in L { ApartFrom(L, a, x); }
    }
  }

  lemma FreedUsedBytes(L: Blocks, lo: int, hi: int, a: int)
    requires Tiles(L, lo, hi) && a in L && L[a].used
    ensures UsedBytes(L[a := L[a].(used := false)], lo, hi) == UsedBytes(L, lo, hi) - L[a].size
  {
    var M, e := L[a := L[a].(used := false)], Next(L, a);
    RetagTiles(L, lo, hi, a, L[a].(used := false));
    BoundaryAfter(L, lo, hi, a);
    assert UsedBytes(L, e, e) == 0 && UsedBytes(M, e, e) == 0;
    assert UsedBytes(L, a, e) == L[a].size && UsedBytes(M, a, e) == 0;
    hide Tiles, UsedBytes;
    UsedBytesReplace(L, M, lo, hi, a, e);
  }

  lemma CarvedUsedBytes(L: Blocks, lo: int, hi: int, need: int)
    requires Tiles(L, lo, hi) && Aligned(lo) && Aligned(hi) && need >= MIN_BLOCK && need % 16 == 0
    ensures UsedBytes(L[hi := Block(need, true, true)], lo, hi + need) == UsedBytes(L, lo, hi) + need
  {
    var M := L[hi := Block(need, true, true)];
    ExtendTiles(L, lo, hi, Block(need, true, true));
    assert UsedBytes(M, hi + need, hi + need) == 0;
    assert UsedBytes(M, hi, hi + need) == need;
    hide Tiles, UsedBytes;
    assert lo in M && lo <= hi by { LowBlock(M, lo, hi + need, hi); }
    UsedBytesCut(M, lo, hi + need, lo, hi);
    UsedBytesSame(L, M, lo, hi);
  }

  // --- bins -----------------------------------------------------------------------

  /** Each bin lists the free blocks of its sizes, leaving x out. */
  ghost predicate BinnedBut(L: Blocks, bins: seq<seq<int>>, x: int) {
    && |bins| == NUM_BINS
    && forall b :: 0 <= b < NUM_BINS ==> Listed(OfBin(L, b) - {x}, bins[b])
  }

  lemma OfBinSet(L: Blocks, a: int, blk: Block, b: nat)
    ensures OfBin(L[a := blk], b) == if Bin(blk.size) == b then OfBin(L, b)[a := blk] else OfBin(L, b) - {a}
  {
    hide Bin;
  }

  lemma TakeOffBinned(L: Blocks, bins: seq<seq<int>>, b: nat, k: nat)
    requires Binned(L, bins) && b < NUM_BINS && k < |bins[b]|
    ensures bins[b][k] in L && !L[bins[b][k]].used && Bin(L[bins[b][k]].size) == b
    ensures BinnedBut(L, TakeOff(bins, b, k), bins[b][k])
  {
    var a := bins[b][k];
    assert a in OfBin(L, b) && !OfBin(L, b)[a].used by { assert Listed(OfBin(L, b), bins[b]); }
    forall c | 0 <= c < NUM_BINS ensures Listed(OfBin(L, c) - {a}, TakeOff(bins, b, k)[c]) {
      assert Listed(OfBin(L, c), bins[c]);
      if c == b {
        RemoveAtListed(OfBin(L, b), bins[b], k);
      } else {
        assert OfBin(L, c) - {a} == OfBin(L, c);
      }
    }
  }

  lemma UseBinned(L: Blocks, bins: seq<seq<int>>, a: int, blk: Block)
    requires BinnedBut(L, bins, a) && blk.used
    ensures Binned(L[a := blk], bins)
  {
    hide Listed, OfBin, Bin;
    forall b | 0 <= b < NUM_BINS ensures Listed(OfBin(L[a := blk], b), bins[b]) {
      OfBinSet(L, a, blk, b);
      UseListed(OfBin(L, b), bins[b], a, blk);
    }
  }

  lemma PutOnBinned(L: Blocks, bins: seq<seq<int>>, x: int, blk: Block)
    requires BinnedBut(L, bins, x) && !blk.used
    ensures Binned(L[x := blk], PutOn(bins, Bin(blk.size), x))
  {
    hide Listed, OfBin, Bin;
    forall b | 0 <= b < NUM_BINS ensures Listed(OfBin(L[x := blk], b), PutOn(bins, Bin(blk.size), x)[b]) {
      OfBinSet(L, x, blk, b);
      if b == Bin(blk.size) {
        PushListed(OfBin(L, b), bins[b], x, blk);
      }
    }
  }

  /** A block that is in use, or not there at all, is on no bin. */
  lemma ButBinned(L: Blocks, bins: seq<seq<int>>, x: int)
    requires Binned(L, bins) && (x in L ==> L[x].used)
    ensures BinnedBut(L, bins, x)
  {
    forall b | 0 <= b < NUM_BINS ensures Listed(OfBin(L, b) - {x}, bins[b]) {
      assert Listed(OfBin(L, b), bins[b]);
    }
  }

  lemma RebinnedBinned(L: Blocks, bins: seq<seq<int>>, b: nat, k: nat, need: int)
    requires |bins| == NUM_BINS && Binned(L, bins) && b < NUM_BINS && k < |bins[b]| && bins[b][k] in L && need > 0
    requires L[bins[b][k]].size >= need + MIN_BLOCK ==> bins[b][k] + need !in L
    ensures Binned(Placed(L, bins[b][k], need), Rebinned(L, bins, b, k, need))
  {
    hide Binned, BinnedBut, OfBin, Bin, TakeOff, RemoveAt;
    var a := bins[b][k];
    var size := L[a].size;
    TakeOffBinned(L, bins, b, k);
    if size >= need + MIN_BLOCK {
      UseBinned(L, TakeOff(bins, b, k), a, Block(need, true, true));
      ButBinned(L[a := Block(need, true, true)], TakeOff(bins, b, k), a + need);
      PutOnBinned(L[a := Block(need, true, true)], TakeOff(bins, b, k), a + need, Block(size - need, false, false));
    } else {
      UseBinned(L, TakeOff(bins, b, k), a, Block(size, true, true));
    }
  }

  // --- what each operation keeps ---------------------------------------------------

  /** g is valid; either p is 0 and neither blocks, bins nor counters changed, or p is
      a new pointer to a block of `size` bytes, counted live, and no other block in use
      changed. Block boundaries are only ever added. */
  ghost predicate Gained(h: Heap, g: Heap, p: int, size: int) {
    && g.Valid() && g.base == h.base && h.Top() <= g.Top()
    && h.blocks.Keys <= g.blocks.Keys
    && (p == 0 ==> g == h.(cur := if h.cur == 0 then h.base else h.cur))
    && (p != 0 ==>
          && p - 4 !in Used(h.blocks)
          && Used(g.blocks) == Used(h.blocks)[p - 4 := Block(size, true, true)]
          && g.live == h.live + size
          && g.peak == if g.live > h.peak then g.live else h.peak)
  }

  lemma ListedBlock(h: Heap, b: nat, k: nat)
    requires h.Valid() && b < NUM_BINS && k < |h.bins[b]|
    ensures var a := h.bins[b][k];
            a in h.blocks && !h.blocks[a].used && a > 0 && Bin(h.blocks[a].size) == b
    ensures h.blocks[h.bins[b][k]].size % 16 == 0 && h.blocks[h.bins[b][k]].size >= MIN_BLOCK
  {
    hide Bin;
    TakeOffBinned(h.blocks, h.bins, b, k);
    assert h.blocks[h.bins[b][k]].Shaped();
  }

  lemma TakeGained(h: Heap, b: nat, k: nat, need: int)
    requires h.Valid() && b < NUM_BINS && k < |h.bins[b]| && h.bins[b][k] in h.blocks
    requires MIN_BLOCK <= need <= h.blocks[h.bins[b][k]].size && need % 16 == 0
    ensures Gained(h, Take(h, b, k, need).0, Take(h, b, k, need).1, need)
    ensures Take(h, b, k, need).1 != 0
  {
    hide Tiles, Binned, UsedBytes, BreakAt, ArenaAt, Used, Rebinned, Bin;
    BinCount(h);
    ListedBlock(h, b, k);
    var a := h.bins[b][k];
    PlacedTiles(h.blocks, h.Lo(), h.Top(), a, need);
    PlacedUsed(h.blocks, a, need);
    PlacedUsedBytes(h.blocks, h.Lo(), h.Top(), a, need);
    RebinnedBinned(h.blocks, h.bins, b, k, need);
  }

  lemma CarveGained(h: Heap, need: int)
    requires h.Valid() && need >= MIN_BLOCK && need % 16 == 0
    ensures Gained(h, Carve(h, need).0, Carve(h, need).1, need)
  {
    hide Tiles, Binned, UsedBytes, Used;
    TopAligned(h.base, h.cur, need);
    var a := h.Top();
    ExtendTiles(h.blocks, h.Lo(), a, Block(need, true, true));
    CarvedUsedBytes(h.blocks, h.Lo(), a, need);
    ButBinned(h.blocks, h.bins, a);
    UseBinned(h.blocks, h.bins, a, Block(need, true, true));
    CarvedUsed(h.blocks, a, need);
  }

  /** malloc hands out a block of exactly the rounded size and counts it. */
  lemma MallocGained(h: Heap, size: int)
    requires h.Valid() && Sane(h.Top(), size)
    ensures Gained(h, Malloc(h, size).0, Malloc(h, size).1, Need(size))
  {
    hide Heap.Valid, Gained, Take, Carve, Need, Bin, Fit;
    BinCount(h);
    var need := Need(size);
    var b := Bin(need);
    var k := Fit(h.blocks, h.bins[b], need, 0);
    if k < |h.bins[b]| {
      ListedBlock(h, b, k);
      TakeGained(h, b, k, need);
    } else {
      CarveGained(h, need);
    }
  }

  /** malloc at every 64-bit size. */
  function MallocOutcome(h: Heap, size: int): Outcome
    requires 0 <= size < SIZE_LIMIT && |h.bins| == NUM_BINS
  {
    if Sane(h.Top(), size) then
      var (g, p) := Malloc(h, size);
      Outcome(p, if p == 0 then 0 else SizeOf(g.blocks, p - 4) - OVERHEAD, g.cur)
    else
      var head := At(h.bins[Bin(Need(size))], 0);
      Wrapped(h.base, h.cur, head, SizeOf(h.blocks, head), Need(size))
  }

  /** The bin of smallest blocks is empty and not even 16 bytes can be carved. */
  predicate Full(h: Heap)
    requires |h.bins| == NUM_BINS
  {
    h.bins[0] == [] && h.Top() + MIN_BLOCK > h.base + ARENA_SIZE
  }

  /** For every size: malloc returns null or a block that holds the request exactly when
      neither the rounding nor the address sum wraps, or there is no smallest block left
      and the size rounds to one. */
  lemma MallocHolds(h: Heap, size: int)
    requires h.Valid() && 0 <= size < SIZE_LIMIT && |h.bins| == NUM_BINS
    ensures var o := MallocOutcome(h, size);
            o.p == 0 || o.room >= size <==> Requestable(h.Top(), size) || (Need(size) == MIN_BLOCK && Full(h))
  {
    hide Tiles, Binned, Used, Need, Malloc, UsedBytes, Bin;
    NeedExact(size);
    if Sane(h.Top(), size) {
      MallocGained(h, size);
      var (g, p) := Malloc(h, size);
      if p != 0 { UsedAt(g.blocks, p - 4); }
      if !Requestable(h.Top(), size) {
        NeedWrapped(size);
        SmallestServed(h, size);
      }
    } else {
      HeadSize(h, Bin(Need(size)));
      var head := At(h.bins[Bin(Need(size))], 0);
      WrappedHolds(h.base, h.cur, head, SizeOf(h.blocks, head), size);
      NotSmallest(h.Top(), h.base, size);
    }
  }

  /** calloc of such a size: if a pointer comes back, zeroing runs past the arena. */
  lemma CallocOverruns(h: Heap, total: int)
    requires h.Valid() && |h.bins| == NUM_BINS && 0 <= total < SIZE_LIMIT && !Requestable(h.Top(), total)
    ensures var o := MallocOutcome(h, total); o.p == 0 || o.p + total > h.base + ARENA_SIZE
  {
    hide Tiles, Binned, Used, Need, Malloc, UsedBytes, Bin;
    if Sane(h.Top(), total) {
      MallocGained(h, total);
      var (g, p) := Malloc(h, total);
      if p != 0 {
        UsedAt(g.blocks, p - 4);
        BlockInside(g.blocks, g.Lo(), g.Top(), p - 4);
        TooLarge(h.base, h.Top(), total, p);
      }
    } else {
      var o, list := MallocOutcome(h, total), h.bins[Bin(Need(total))];
      if list != [] {
        ListedBlock(h, Bin(Need(total)), 0);
        BlockInside(h.blocks, h.Lo(), h.Top(), list[0]);
      }
      TooLarge(h.base, h.Top(), total, o.p);
    }
  }

  lemma HeadSize(h: Heap, b: nat)
    requires h.Valid() && b < NUM_BINS && |h.bins| == NUM_BINS
    ensures var head := At(h.bins[b], 0);
            head >= 0 && SizeOf(h.blocks, head) < TAG_LIMIT && (head != 0 ==> head in h.blocks)
  {
    hide Tiles, Binned, UsedBytes, Bin;
    if h.bins[b] != [] {
      ListedBlock(h, b, 0);
    }
    var head := At(h.bins[b], 0);
    if head in h.blocks {
      SizeFitsTag(h.blocks, h.base, h.Top(), head);
    }
  }

  lemma SmallestServed(h: Heap, size: int)
    requires h.Valid() && |h.bins| == NUM_BINS && Sane(h.Top(), size) && Need(size) == MIN_BLOCK
    ensures Malloc(h, size).1 == 0 <==> Full(h)
  {
    hide Tiles, Binned, Need, UsedBytes;
    if h.bins[0] != [] {
      ListedBlock(h, 0, 0);
      assert Fit(h.blocks, h.bins[0], MIN_BLOCK, 0) == 0;
    }
  }

  lemma BinCount(h: Heap)
    requires h.Valid()
    ensures |h.bins| == NUM_BINS
  {
  }

  /** free takes exactly the given block out of use and out of the live count. */
  lemma FreeValid(h: Heap, p: int)
    requires h.Valid() && |h.bins| == NUM_BINS
    ensures var g := Free(h, p);
            && g.Valid() && g.base == h.base && g.cur == h.cur && g.peak == h.peak
            && Used(g.blocks) == Used(h.blocks) - {p - 4}
            && g.blocks.Keys == h.blocks.Keys
            && g.live == h.live - (if p - 4 in Used(h.blocks) then h.blocks[p - 4].size else 0)
  {
    NoBlockBelow(h);
    if p != 0 && p - 4 in h.blocks && h.blocks[p - 4].used {
      FreeStep(h, p - 4);
    } else {
      assert Used(h.blocks) - {p - 4} == Used(h.blocks);
    }
    hide Heap.Valid;
  }

  lemma NoBlockBelow(h: Heap)
    requires h.Valid()
    ensures -4 !in h.blocks
  {
  }

  lemma FreeStep(h: Heap, a: int)
    requires h.Valid() && |h.bins| == NUM_BINS && a in h.blocks && h.blocks[a].used && a != -4
    ensures Free(h, a + 4).Valid()
    ensures Used(Free(h, a + 4).blocks) == Used(h.blocks) - {a}
    ensures h.blocks[a].size <= h.live
  {
    FreedUsed(h.blocks, a);
    BytesConserved(h.blocks, h.Lo(), h.Top(), h.Lo()) by { LowBlock(h.blocks, h.Lo(), h.Top(), a); }
    hide Tiles, Binned, UsedBytes, Used, BreakAt;
    RetagTiles(h.blocks, h.Lo(), h.Top(), a, h.blocks[a].(used := false));
    FreedUsedBytes(h.blocks, h.Lo(), h.Top(), a);
    ButBinned(h.blocks, h.bins, a);
    PutOnBinned(h.blocks, h.bins, a, h.blocks[a].(used := false));
    UsedBytesNonNegative(h.blocks[a := h.blocks[a].(used := false)], h.Lo(), h.Top());
  }

  lemma FreedUsed(L: Blocks, a: int)
    requires a in L && L[a].used
    ensures Used(L[a := L[a].(used := false)]) == Used(L) - {a}
  {
  }

  lemma {:induction false} UsedBytesNonNegative(L: Blocks, a: int, hi: int)
    ensures UsedBytes(L, a, hi) >= 0
    decreases hi - a
  {
    if a < hi && a in L && L[a].size > 0 {
      UsedBytesNonNegative(L, Next(L, a), hi);
    }
  }

  /** What realloc of live pointer p does. Both blocks are live for a moment, and the
      peak sees it. */
  ghost predicate Resized(h: Heap, p: int, g: Heap, q: int, size: int)
    requires p - 4 in h.blocks
  {
    && g.Valid() && g.base == h.base && h.Top() <= g.Top()
    && h.blocks.Keys <= g.blocks.Keys
    && (q == 0 ==> g == h.(cur := if h.cur == 0 then h.base else h.cur))
    && (q != 0 ==>
          && q - 4 !in Used(h.blocks)
          && Used(g.blocks) == (Used(h.blocks) - {p - 4})[q - 4 := Block(size, true, true)]
          && g.live == h.live + size - h.blocks[p - 4].size
          && g.peak == if h.live + size > h.peak then h.live + size else h.peak)
  }

  lemma ReallocResized(h: Heap, p: int, size: int)
    requires h.Valid() && |h.bins| == NUM_BINS && p - 4 in Used(h.blocks) && p != 0 && size != 0 && Sane(h.Top(), size)
    ensures Resized(h, p, Realloc(h, p, size).0, Realloc(h, p, size).1, Need(size))
  {
    hide Heap.Valid, Malloc, Free, Need;
    MallocGained(h, size);
    var (g, q) := Malloc(h, size);
    BinCount(g);
    if q != 0 {
      FreeValid(g, p);
      assert g.blocks[p - 4] == Used(g.blocks)[p - 4] == Used(h.blocks)[p - 4];
    }
  }

  // --- first fit in a bin -----------------------------------------------------------

  /** Bins of a single size: a hit is the head of the list, used whole; so a request
      for such a size looks at no more than one block. */
  lemma SingleSizeHit(h: Heap, size: int)
    requires h.Valid() && Sane(h.Top(), size) && SingleSize(Bin(Need(size)))
    ensures |h.bins| == NUM_BINS
    ensures var b := Bin(Need(size));
            h.bins[b] != [] ==>
              && h.bins[b][0] in h.blocks && h.blocks[h.bins[b][0]].size == Need(size)
              && Malloc(h, size).1 == h.bins[b][0] + 4
              && Malloc(h, size).0.bins == TakeOff(h.bins, b, 0)
              && Malloc(h, size).0.blocks.Keys == h.blocks.Keys
  {
    hide Heap.Valid, Need, Bin;
    BinCount(h);
    var b := Bin(Need(size));
    if h.bins[b] != [] {
      ListedBlock(h, b, 0);
      SingleSizeBin(h.blocks[h.bins[b][0]].size, Need(size));
    }
  }

  // --- whole runs --------------------------------------------------------------------

  datatype Op = OpMalloc(size: int) | OpFree(p: int) | OpRealloc(p: int, size: int) | OpReset

  /** alloc_stat_reset restarts the peak at the live count. */
  function Reset(h: Heap): Heap {
    h.(peak := h.live)
  }

  /** A pointer may be freed as long as its header is a block, in use or not. */
  ghost predicate Allowed(h: Heap, op: Op) {
    && |h.bins| == NUM_BINS
    && match op
       case OpMalloc(size) => Sane(h.Top(), size)
       case OpFree(p) => p == 0 || p - 4 in h.blocks
       case OpRealloc(p, size) =>
         if p == 0 then Sane(h.Top(), size)
         else p - 4 in Used(h.blocks) && (size == 0 || Requestable(h.Top(), size))
       case OpReset => true
  }

  ghost function Apply(h: Heap, op: Op): (Heap, int)
    requires Allowed(h, op)
  {
    match op
    case OpMalloc(size) => Malloc(h, size)
    case OpFree(p) => (Free(h, p), 0)
    case OpRealloc(p, size) => Realloc(h, p, size)
    case OpReset => (Reset(h), 0)
  }

  /** The live count after each elementary step of an operation; realloc that moves
      takes two. */
  ghost function Lives(h: Heap, op: Op): seq<int>
    requires Allowed(h, op)
  {
    match op
    case OpRealloc(p, size) =>
      if p == 0 || size == 0 then [Apply(h, op).0.live]
      else [Malloc(h, size).0.live, Apply(h, op).0.live]
    case _ => [Apply(h, op).0.live]
  }

  ghost predicate AllAllowed(h: Heap, ops: seq<Op>)
    decreases |ops|
  {
    ops == [] || (Allowed(h, ops[0]) && AllAllowed(Apply(h, ops[0]).0, ops[1..]))
  }

  ghost function Run(h: Heap, ops: seq<Op>): Heap
    requires AllAllowed(h, ops)
    decreases |ops|
  {
    if ops == [] then h else Run(Apply(h, ops[0]).0, ops[1..])
  }

  ghost function LivesAlong(h: Heap, ops: seq<Op>): seq<int>
    requires AllAllowed(h, ops)
    decreases |ops|
  {
    if ops == [] then [] else Lives(h, ops[0]) + LivesAlong(Apply(h, ops[0]).0, ops[1..])
  }

  /** The larger of x and everything in s. */
  ghost function Highest(x: int, s: seq<int>): (r: int)
    ensures r >= x && forall i :: 0 <= i < |s| ==> s[i] <= r
    ensures r == x || r in s
    decreases |s|
  {
    if s == [] then x else Highest(if s[0] > x then s[0] else x, s[1..])
  }

  /** Every operation keeps the heap valid, the break where it is or higher, and all
      block boundaries; and its peak is the highest live count it went through. */
  lemma StepValid(h: Heap, op: Op)
    requires h.Valid() && Allowed(h, op)
    ensures var g := Apply(h, op).0;
            && g.Valid() && g.base == h.base && h.Top() <= g.Top() && h.blocks.Keys <= g.blocks.Keys
    ensures !op.OpReset? ==> Apply(h, op).0.peak == Highest(h.peak, Lives(h, op))
  {
    match op
    case OpMalloc(size) =>
      MallocStep(h, size);
    case OpFree(p) =>
      FreeStepPeak(h, p);
    case OpRealloc(p, size) =>
      if p == 0 {
        MallocStep(h, size);
      } else if size == 0 {
        FreeStepPeak(h, p);
      } else {
        ReallocStep(h, p, size);
      }
    case OpReset =>
  }

  lemma MallocStep(h: Heap, size: int)
    requires h.Valid() && |h.bins| == NUM_BINS && Sane(h.Top(), size)
    ensures var g := Malloc(h, size).0;
            && g.Valid() && g.base == h.base && h.Top() <= g.Top() && h.blocks.Keys <= g.blocks.Keys
            && g.peak == Highest(h.peak, [g.live])
  {
    LiveBelowPeak(h);
    hide Heap.Valid, Malloc, Need;
    MallocGained(h, size);
    var g := Malloc(h, size).0;
    assert [g.live][1..] == [];
  }

  lemma FreeStepPeak(h: Heap, p: int)
    requires h.Valid() && |h.bins| == NUM_BINS
    ensures var g := Free(h, p);
            && g.Valid() && g.base == h.base && h.Top() <= g.Top() && h.blocks.Keys <= g.blocks.Keys
            && g.peak == Highest(h.peak, [g.live])
  {
    LiveBelowPeak(h);
    hide Heap.Valid, Free;
    FreeValid(h, p);
    LiveBelowPeak(Free(h, p));
    assert [Free(h, p).live][1..] == [];
  }

  lemma ReallocStep(h: Heap, p: int, size: int)
    requires h.Valid() && |h.bins| == NUM_BINS && p != 0 && size != 0
    requires p - 4 in Used(h.blocks) && Sane(h.Top(), size)
    ensures var g := Realloc(h, p, size).0;
            && g.Valid() && g.base == h.base && h.Top() <= g.Top() && h.blocks.Keys <= g.blocks.Keys
            && g.peak == Highest(h.peak, [Malloc(h, size).0.live, g.live])
  {
    LiveBelowPeak(h);
    assert Malloc(h, size).1 == 0 ==> Realloc(h, p, size).1 == 0;
    hide Heap.Valid, Malloc, Realloc, Need;
    MallocGained(h, size);
    ReallocResized(h, p, size);
    ReallocFails(h, p, size);
    var l, g := Malloc(h, size).0.live, Realloc(h, p, size).0;
    LiveBelowPeak(g);
    assert [l, g.live][1..] == [g.live] && [g.live][1..] == [];
  }

  lemma ReallocFails(h: Heap, p: int, size: int)
    requires h.Valid() && |h.bins| == NUM_BINS && p != 0 && size != 0 && Sane(h.Top(), size)
    ensures Realloc(h, p, size).1 == Malloc(h, size).1
  {
    MallocGained(h, size);
    hide Malloc, Need;
  }

  lemma LiveBelowPeak(h: Heap)
    requires h.Valid()
    ensures h.live <= h.peak
  {
  }

  /** All states of all runs: blocks tile the heap, the bins partition the free blocks
      by size class, the live counter is the sum of used block sizes; the break never
      moves down and no block boundary ever disappears. */
  lemma {:induction false} RunValid(h: Heap, ops: seq<Op>)
    requires h.Valid() && AllAllowed(h, ops)
    ensures var g := Run(h, ops);
            g.Valid() && g.base == h.base && h.Top() <= g.Top() && h.blocks.Keys <= g.blocks.Keys
    decreases |ops|
  {
    hide Heap.Valid, Apply, Allowed;
    if ops != [] {
      StepValid(h, ops[0]);
      RunValid(Apply(h, ops[0]).0, ops[1..]);
    }
  }

  lemma {:induction false} HighestConcat(x: int, s: seq<int>, t: seq<int>)
    ensures Highest(x, s + t) == Highest(Highest(x, s), t)
    decreases |s|
  {
    if s == [] {
      assert s + t == t;
    } else {
      assert (s + t)[1..] == s[1..] + t;
      HighestConcat(if s[0] > x then s[0] else x, s[1..], t);
    }
  }

  /** The peak counter is exactly the highest live count since the last reset. */
  lemma {:induction false} PeakIsHighest(h: Heap, ops: seq<Op>)
    requires h.Valid() && AllAllowed(h, ops)
    requires forall i :: 0 <= i < |ops| ==> !ops[i].OpReset?
    ensures Run(h, ops).peak == Highest(h.peak, LivesAlong(h, ops))
    decreases |ops|
  {
    hide Heap.Valid, Apply, Allowed, Lives;
    if ops != [] {
      StepValid(h, ops[0]);
      var g := Apply(h, ops[0]).0;
      PeakIsHighest(g, ops[1..]);
      HighestConcat(h.peak, Lives(h, ops[0]), LivesAlong(g, ops[1..]));
    }
  }

  lemma {:induction false} RunConcat(h: Heap, a: seq<Op>, b: seq<Op>)
    requires AllAllowed(h, a + b)
    ensures AllAllowed(h, a) && AllAllowed(Run(h, a), b) && Run(h, a + b) == Run(Run(h, a), b)
    decreases |a|
  {
    hide Allowed, Apply;
    if a == [] {
      assert a + b == b;
    } else {
      assert (a + b)[1..] == a[1..] + b;
      RunConcat(Apply(h, a[0]).0, a[1..], b);
    }
  }

  lemma OneReset(h: Heap)
    requires h.Valid() && AllAllowed(h, [OpReset])
    ensures Run(h, [OpReset]) == Reset(h) && Reset(h).Valid()
  {
    hide Heap.Valid;
    assert [OpReset][1..] == [];
    StepValid(h, OpReset);
  }

  /** The same on a run with resets: only what follows the last one counts, from the live
      count it found. */
  lemma PeakSinceReset(h: Heap, before: seq<Op>, after: seq<Op>)
    requires h.Valid() && AllAllowed(h, before + ([OpReset] + after))
    requires forall i :: 0 <= i < |after| ==> !after[i].OpReset?
    ensures AllAllowed(h, before) && AllAllowed(Reset(Run(h, before)), after)
    ensures var g := Reset(Run(h, before));
            Run(h, before + ([OpReset] + after)).peak == Highest(Run(h, before).live, LivesAlong(g, after))
  {
    hide Heap.Valid, LivesAlong, Allowed, Apply, Run, AllAllowed, Highest;
    RunConcat(h, before, [OpReset] + after);
    var g := Run(h, before);
    RunConcat(g, [OpReset], after);
    RunValid(h, before);
    OneReset(g);
    PeakIsHighest(Reset(g), after);
  }

  /** A pointer once handed out, by malloc or by realloc, can be freed at any later time:
      while its block is not in use, that changes nothing at all. */
  lemma StaleFree(h: Heap, op: Op, ops: seq<Op>)
    requires h.Valid() && Allowed(h, op) && Apply(h, op).1 != 0 && AllAllowed(Apply(h, op).0, ops)
    ensures var p, g := Apply(h, op).1, Run(Apply(h, op).0, ops);
            && |g.bins| == NUM_BINS && Allowed(g, OpFree(p))
            && (p - 4 !in Used(g.blocks) ==> Free(g, p) == g)
  {
    hide Heap.Valid, Malloc, Realloc, Free, Need;
    StepValid(h, op);
    var (g, p) := Apply(h, op);
    RunValid(g, ops);
    BinCount(Run(g, ops));
    Returned(h, op);
    UsedAt(Run(g, ops).blocks, p - 4);
    if p - 4 !in Used(Run(g, ops).blocks) { FreeIdle(Run(g, ops), p); }
  }

  lemma FreeIdle(h: Heap, p: int)
    requires |h.bins| == NUM_BINS && (p - 4 in h.blocks ==> !h.blocks[p - 4].used)
    ensures Free(h, p) == h
  {
  }

  /** What an operation returns is the payload of a block. */
  lemma Returned(h: Heap, op: Op)
    requires h.Valid() && Allowed(h, op) && Apply(h, op).1 != 0
    ensures Apply(h, op).1 - 4 in Apply(h, op).0.blocks
  {
    hide Heap.Valid, Malloc, Realloc, Free, Need;
    match op
    case OpMalloc(size) => MallocReturned(h, size);
    case OpRealloc(p, size) =>
      ReallocIs(h, p, size);
      if p == 0 {
        MallocReturned(h, size);
      } else {
        ReallocResized(h, p, size);
        UsedAt(Apply(h, op).0.blocks, Apply(h, op).1 - 4);
      }
    case OpFree(_) =>
    case OpReset =>
  }

  lemma MallocReturned(h: Heap, size: int)
    requires h.Valid() && |h.bins| == NUM_BINS && Sane(h.Top(), size) && Malloc(h, size).1 != 0
    ensures Malloc(h, size).1 - 4 in Malloc(h, size).0.blocks
  {
    hide Heap.Valid, Malloc, Need;
    MallocGained(h, size);
    UsedAt(Malloc(h, size).0.blocks, Malloc(h, size).1 - 4);
  }

  lemma ReallocIs(h: Heap, p: int, size: int)
    requires 0 <= size < SIZE_LIMIT && |h.bins| == NUM_BINS
    ensures p == 0 ==> Realloc(h, p, size) == Malloc(h, size)
    ensures p != 0 && size == 0 ==> Realloc(h, p, size) == (Free(h, p), 0)
  {
  }

  /** Conservation over runs: live and free bytes and the first padding make up the
      arena used so far. */
  lemma RunConserves(base: int, ops: seq<Op>)
    requires ArenaAt(base) && AllAllowed(Empty(base), ops)
    ensures var h := Run(Empty(base), ops);
            h.cur > base ==> h.live + FreeBytes(h.blocks, h.Lo(), h.Top()) + FIRST_PAD == h.cur - base
  {
    RunValid(Empty(base), ops);
    var h := Run(Empty(base), ops);
    if h.cur > base {
      BytesConserved(h.blocks, h.Lo(), h.Top(), h.Lo());
    }
  }
}
