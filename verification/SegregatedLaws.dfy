/** What each call of the segregated allocator leaves behind, told by the limits of the size
    classes, block flags and the order of the lists. */
module SegregatedLaws {
  import opened Layout
  import opened Format
  import opened FreeLists
  import opened SegregatedHeap

  // --- size classes --------------------------------------------------------------

  /** The largest size of each class but the last. */
  const LIMITS: seq<int> := [16, 32, 64, 80, 96, 112, 128, 256, 512, 1024]

  /** How many of these limits lie below a size. */
  function Below(limits: seq<int>, size: int): (n: nat)
    ensures n <= |limits|
  {
    if limits == [] then 0
    else Below(limits[..|limits| - 1], size) + if limits[|limits| - 1] < size then 1 else 0
  }

  /** No limit lies between the two sizes. */
  predicate SameClass(x: int, y: int) {
    forall i :: 0 <= i < |LIMITS| ==> (x <= LIMITS[i] <==> y <= LIMITS[i])
  }

  /** The bin of a size is how many limits lie below it. */
  lemma BinCounts(size: int)
    ensures Bin(size) == Below(LIMITS, size)
  {
    BelowRising(LIMITS, size, Bin(size));
  }

  lemma {:induction false} BelowRising(limits: seq<int>, size: int, n: nat)
    requires n <= |limits| && forall i :: 0 <= i < |limits| ==> (limits[i] < size <==> i < n)
    ensures Below(limits, size) == n
  {
    var m := |limits| - 1;
    if limits != [] { BelowRising(limits[..m], size, if n > m then m else n); }
  }

  /** Two sizes share a bin exactly when no limit lies between them. */
  lemma BinsAreClasses(x: int, y: int)
    ensures Bin(x) == Bin(y) <==> SameClass(x, y)
  {
    assert LIMITS[0] == 16 && LIMITS[1] == 32 && LIMITS[2] == 64 && LIMITS[3] == 80 && LIMITS[4] == 96;
    assert LIMITS[5] == 112 && LIMITS[6] == 128 && LIMITS[7] == 256 && LIMITS[8] == 512 && LIMITS[9] == 1024;
  }

  /** Each free block is on the list of its class and on no other. */
  lemma ListedByClass(h: Heap, a: int, b: nat)
    requires h.Valid() && |h.bins| == NUM_BINS && b < NUM_BINS
    ensures a in h.bins[b] <==> a in h.blocks && !h.blocks[a].used && Below(LIMITS, h.blocks[a].size) == b
  {
    hide Tiles, UsedBytes, Bin, Below;
    if a in h.blocks { BinCounts(h.blocks[a].size); }
    assert Listed(OfBin(h.blocks, b), h.bins[b]);
    if a in h.bins[b] {
      var k :| 0 <= k < |h.bins[b]| && h.bins[b][k] == a;
    }
    assert a in h.blocks && Bin(h.blocks[a].size) == b <==> a in OfBin(h.blocks, b);
  }

  // --- malloc --------------------------------------------------------------------

  /** No free block of the class of `need` is large enough. */
  ghost predicate NoneFits(L: Blocks, need: int) {
    forall a :: a in L && !L[a].used && SameClass(L[a].size, need) ==> L[a].size < need
  }

  /** malloc makes a new block at the break exactly when no free block of the request's
      class is large enough, and fails exactly when the arena then has no room. Otherwise
      the break stays, and the block was free and of that class. */
  ghost predicate Answered(h: Heap, g: Heap, p: int, need: int) {
    && (p == 0 <==> NoneFits(h.blocks, need) && h.Top() + need > h.base + ARENA_SIZE)
    && (p == h.Top() + 4 <==> NoneFits(h.blocks, need) && h.Top() + need <= h.base + ARENA_SIZE)
    && (g.Top() != h.Top() <==> p == h.Top() + 4)
    && (!NoneFits(h.blocks, need) ==>
          && p - 4 in h.blocks && !h.blocks[p - 4].used
          && h.blocks[p - 4].size >= need && SameClass(h.blocks[p - 4].size, need))
  }

  lemma MallocServed(h: Heap, size: int)
    requires h.Valid() && |h.bins| == NUM_BINS && Sane(h.Top(), size)
    ensures Answered(h, Malloc(h, size).0, Malloc(h, size).1, Need(size))
  {
    hide Tiles, UsedBytes, Bin, Need, SameClass, Binned, Placed, Rebinned;
    var need := Need(size);
    var b := Bin(need);
    var k := Fit(h.blocks, h.bins[b], need, 0);
    forall a | a in h.blocks && !h.blocks[a].used ensures SameClass(h.blocks[a].size, need) <==> a in h.bins[b] {
      OfClass(h, a, need);
    }
    if k < |h.bins[b]| {
      ListedBlock(h, b, k);
      OfClass(h, h.bins[b][k], need);
      BlockInside(h.blocks, h.Lo(), h.Top(), h.bins[b][k]);
    } else {
      forall a | a in h.bins[b] ensures SizeOf(h.blocks, a) < need {
        var j :| 0 <= j < |h.bins[b]| && h.bins[b][j] == a;
      }
    }
  }

  lemma OfClass(h: Heap, a: int, need: int)
    requires h.Valid() && |h.bins| == NUM_BINS && a in h.blocks && !h.blocks[a].used
    ensures SameClass(h.blocks[a].size, need) <==> a in h.bins[Bin(need)]
  {
    hide Tiles, UsedBytes, Bin, Below, SameClass, Binned;
    BinsAreClasses(h.blocks[a].size, need);
    BinCounts(h.blocks[a].size);
    ListedByClass(h, a, Bin(need));
  }

  /** The first block of the class's list that is large enough is handed out; what is left
      of it goes first on the list of its own class. */
  lemma MallocTakes(h: Heap, size: int, x: seq<int>, a: int, y: seq<int>)
    requires h.Valid() && |h.bins| == NUM_BINS && Sane(h.Top(), size)
    requires h.bins[Below(LIMITS, Need(size))] == x + [a] + y
    requires a in h.blocks && h.blocks[a].size >= Need(size)
    requires forall c :: c in x ==> c in h.blocks && h.blocks[c].size < Need(size)
    ensures var (g, p) := Malloc(h, size);
            var need := Need(size);
            var rest, less := h.blocks[a].size - need, h.bins[Below(LIMITS, need) := x + y];
            var front, c := h.blocks[a := Block(need, true, true)], Below(LIMITS, rest);
            && p == a + 4 && g.cur == h.cur && g.live == h.live + need
            && (rest == 0 ==> g.blocks == front && g.bins == less)
            && (rest != 0 ==> g.blocks == front[a + need := Block(rest, false, false)]
                              && g.bins == less[c := [a + need] + less[c]])
  {
    hide Heap.Valid, Need, Bin, Below;
    var need := Need(size);
    BinCounts(need);
    BinCounts(h.blocks[a].size - need);
    var list, k := h.bins[Bin(need)], |x|;
    assert list[k] == a && forall j :: 0 <= j < k ==> list[j] == x[j] && x[j] in x;
    assert Fit(h.blocks, list, need, 0) == k;
    assert RemoveAt(list, k) == x + y;
    SizeOf16(h, a, need);
  }

  lemma SizeOf16(h: Heap, a: int, need: int)
    requires h.Valid() && a in h.blocks && need % 16 == 0
    ensures need <= h.blocks[a].size < need + MIN_BLOCK ==> h.blocks[a].size == need
  {
    hide Binned, UsedBytes;
    BlockInside(h.blocks, h.Lo(), h.Top(), a);
    SumOf16(h.blocks[a].size, need);
  }

  /** With no such block a new one is made at the break, or none if the arena has no room. */
  lemma MallocCarves(h: Heap, size: int)
    requires h.Valid() && |h.bins| == NUM_BINS && Sane(h.Top(), size) && NoneFits(h.blocks, Need(size))
    ensures var (g, p) := Malloc(h, size);
            var top, need := h.Top(), Need(size);
            if top + need <= h.base + ARENA_SIZE then
              && p == top + 4 && g.bins == h.bins && g.cur == top + need && g.live == h.live + need
              && g.blocks == h.blocks[top := Block(need, true, true)]
            else
              p == 0 && g == h.(cur := if h.cur == 0 then h.base else h.cur)
  {
    hide Heap.Valid, Need, Bin, Placed, Rebinned, SameClass;
    var k := Fit(h.blocks, h.bins[Bin(Need(size))], Need(size), 0);
    if k < |h.bins[Bin(Need(size))]| {
      var a := h.bins[Bin(Need(size))][k];
      ListedBlock(h, Bin(Need(size)), k);
      OfClass(h, a, Need(size));
    }
  }

  // --- free and realloc ------------------------------------------------------------

  /** free of a block in use: only its header flag is cleared, and it goes first on the list
      of its class. */
  lemma FreeExact(h: Heap, p: int)
    requires h.Valid() && |h.bins| == NUM_BINS && p != 0 && p - 4 in h.blocks && h.blocks[p - 4].used
    ensures var a, size := p - 4, h.blocks[p - 4].size;
            var c := Below(LIMITS, size);
            Free(h, p) == Heap(h.base, h.blocks[a := Block(size, false, true)], h.bins[c := [a] + h.bins[c]],
                               h.cur, h.live - size, h.peak)
  {
    hide Binned, UsedBytes, Bin, Below;
    BinCounts(h.blocks[p - 4].size);
    assert h.blocks[p - 4].Shaped();
  }

  /** realloc never stays: it is malloc and, if that gives a pointer, another one, free. */
  lemma ReallocMoves(h: Heap, p: int, size: int)
    requires h.Valid() && |h.bins| == NUM_BINS && p != 0 && p - 4 in Used(h.blocks)
    requires 0 < size && Sane(h.Top(), size)
    ensures var (g, q) := Malloc(h, size);
            && |g.bins| == NUM_BINS && q != p
            && Realloc(h, p, size) == if q == 0 then (g, 0) else (Free(g, p), q)
  {
    hide Malloc, Heap.Valid, Need;
    MallocGained(h, size);
    BinCount(Malloc(h, size).0);
  }

  /** A freed block of 384 bytes does not serve a request for 256, a limit between two
      classes: a new block is made. */
  lemma ClassesKept(base: int)
    requires ArenaAt(base)
    ensures var (h, p) := Malloc(Empty(base), 376);
            && p == base + 16 && |h.bins| == NUM_BINS
            && |Free(h, p).bins| == NUM_BINS && Malloc(Free(h, p), 240).1 == base + 400
  {
    assert Need(376) == 384 && Need(240) == 256;
  }
}
