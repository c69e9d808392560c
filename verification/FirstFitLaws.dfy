/** What each call of the first-fit allocator leaves behind, told by block flags, sizes and
    the order of the list alone. */
module FirstFitLaws {
  import opened Layout
  import opened Format
  import opened FreeLists
  import opened FirstFitHeap
  import opened Coalescing

  // --- lists ---------------------------------------------------------------------

  /** The list without the blocks in `gone`, in the same order. */
  function Kept(free: seq<int>, gone: set<int>): seq<int> {
    if free == [] then []
    else if free[0] in gone then Kept(free[1..], gone)
    else [free[0]] + Kept(free[1..], gone)
  }

  lemma {:induction false} KeptAll(free: seq<int>, gone: set<int>)
    requires forall i :: 0 <= i < |free| ==> free[i] !in gone
    ensures Kept(free, gone) == free
  {
    if free != [] {
      KeptAll(free[1..], gone);
      assert free == [free[0]] + free[1..];
    }
  }

  lemma {:induction false} KeptOne(free: seq<int>, x: int)
    requires Distinct(free)
    ensures Kept(free, {x}) == Without(free, x)
  {
    if free != [] {
      if free[0] == x {
        KeptAll(free[1..], {x});
      } else {
        KeptOne(free[1..], x);
      }
    }
  }

  lemma {:induction false} KeptTwice(free: seq<int>, a: set<int>, b: set<int>)
    ensures Kept(Kept(free, a), b) == Kept(free, a + b)
  {
    if free != [] {
      KeptTwice(free[1..], a, b);
    }
  }

  // --- malloc --------------------------------------------------------------------

  /** The first listed block that is large enough is handed out; what is left of it becomes
      a block of its own, first on the list, and the others keep their order. */
  lemma MallocTakes(h: Heap, size: int, x: seq<int>, a: int, y: seq<int>)
    requires h.Valid() && Sane(h.Top(), size) && h.free == x + [a] + y
    requires a in h.blocks && h.blocks[a].size >= Need(size)
    requires forall b :: b in x ==> b in h.blocks && h.blocks[b].size < Need(size)
    ensures var (g, p) := Malloc(h, size);
            var rest := h.blocks[a].size - Need(size);
            var front := h.blocks[a := Block(Need(size), true, true)];
            && p == a + 4 && g.base == h.base && g.cur == h.cur
            && (rest == 0 ==> g.blocks == front && g.free == x + y)
            && (rest != 0 ==> g.blocks == front[a + Need(size) := Block(rest, false, false)]
                              && g.free == [a + Need(size)] + x + y)
  {
    hide Heap.Valid, Need;
    var k := |x|;
    assert h.free[k] == a && forall j :: 0 <= j < k ==> h.free[j] == x[j] && x[j] in x;
    MallocIsFirstFit(h, size, k);
    assert RemoveAt(h.free, k) == x + y;
    SizeOf16(h, a, Need(size));
  }

  lemma SizeOf16(h: Heap, a: int, need: int)
    requires h.Valid() && a in h.blocks && need % 16 == 0
    ensures need <= h.blocks[a].size < need + MIN_BLOCK ==> h.blocks[a].size == need
  {
    BlockInside(h.blocks, h.Lo(), h.Top(), a);
    SumOf16(h.blocks[a].size, need);
  }

  /** With no such block a new one is made at the break, or none if the arena has no room. */
  lemma MallocCarves(h: Heap, size: int)
    requires h.Valid() && Sane(h.Top(), size)
    requires forall a :: a in h.blocks && !h.blocks[a].used ==> h.blocks[a].size < Need(size)
    ensures var (g, p) := Malloc(h, size);
            if h.Top() + Need(size) <= h.base + ARENA_SIZE then
              && p == h.Top() + 4
              && g == Heap(h.base, h.blocks[h.Top() := Block(Need(size), true, true)], h.free, h.Top() + Need(size))
            else
              p == 0 && g == h.(cur := if h.cur == 0 then h.base else h.cur)
  {
    hide Tiles, Need;
    MallocIsFirstFit(h, size, |h.free|);
  }

  // --- free ----------------------------------------------------------------------

  /** The neighbours that free merges with block a: on the right by the header flag, on the
      left by the footer flag. */
  ghost function Absorbed(L: Blocks, a: int): set<int>
    requires a in L
  {
    set x | x in L && ((x == Next(L, a) && !L[x].used) || (Next(L, x) == a && !L[x].foot))
  }

  /** In M the free block s spans just what the blocks `gone` spanned in L; nothing else
      differs. */
  ghost predicate Fused(L: Blocks, M: Blocks, gone: set<int>, s: int) {
    && s in gone && gone <= L.Keys
    && s in M && !M[s].used && M.Keys == L.Keys - gone + {s}
    && (forall x :: x in M && x != s ==> x in L && M[x] == L[x])
    && (forall x :: x in gone ==> s <= x && Next(L, x) <= Next(M, s))
    && (exists x :: x in gone && Next(L, x) == Next(M, s))
  }

  /** Block a and the neighbours it absorbs have become one free block s, first on the list,
      from which those neighbours are gone. Its footer flag is set exactly when there were
      none. */
  ghost predicate Freed(h: Heap, g: Heap, a: int, s: int)
    requires a in h.blocks
  {
    var gone := Absorbed(h.blocks, a);
    && Fused(h.blocks, g.blocks, gone + {a}, s)
    && (g.blocks[s].foot <==> gone == {})
    && g.free == [s] + Kept(h.free, gone) && g.base == h.base && g.cur == h.cur
  }

  lemma FreeExact(h: Heap, p: int) returns (s: int)
    requires h.Valid() && p != 0 && p - 4 in h.blocks && h.blocks[p - 4].used
    ensures Freed(h, Free(h, p), p - 4, s)
  {
    hide Heap.Valid, Kept, Without, Used, Fused, Absorbed;
    var a := p - 4;
    var l := LeftFree(h.blocks, a);
    s := if l != 0 then l else a;
    Neighbours(h, a);
    ListKept(h, a);
    FusedBlocks(h, a);
  }

  /** What is absorbed, block by block; the left neighbour looks the same after the right
      merge. */
  lemma Neighbours(h: Heap, a: int)
    requires h.Valid() && a in h.blocks && h.blocks[a].used
    ensures var l := LeftFree(h.blocks, a);
            && Absorbed(h.blocks, a)
               == (if FreeRight(h.blocks, a) then {Next(h.blocks, a)} else {}) + (if l != 0 then {l} else {})
            && LeftFree(MergeRight(h, a).blocks, a) == l
            && l < a < Next(h.blocks, a)
  {
    hide Listed, BreakAt, Tiles;
    var L, M := h.blocks, MergeRight(h, a).blocks;
    var l, l' := LeftFree(L, a), LeftFree(M, a);
    ShapedAll(L, h.Lo(), h.Top());
    BlockInside(L, h.Lo(), h.Top(), a);
    forall x ensures FreeOnLeft(M, x, a) <==> FreeOnLeft(L, x, a) {
      if x in L && x != a { assert Next(L, x) == a ==> x < a; }
    }
    if l != 0 && l' != 0 { OneLeft(h, l, l'); }
    forall x | FreeOnLeft(L, x, a) ensures x != 0 && x == l {
      if l != 0 { OneLeft(h, x, l); }
    }
    forall x ensures x in Absorbed(L, a) <==> (x == Next(L, a) && FreeRight(L, a)) || (x == l && l != 0) {
      assert x in L && Next(L, x) == a && !L[x].foot <==> FreeOnLeft(L, x, a);
    }
  }

  lemma OneLeft(h: Heap, x: int, y: int)
    requires h.Valid() && x in h.blocks && y in h.blocks && Next(h.blocks, x) == Next(h.blocks, y)
    ensures x == y
  {
    NextInjective(h.blocks, x, y);
  }

  lemma ListKept(h: Heap, a: int)
    requires h.Valid() && a in h.blocks && h.blocks[a].used
    ensures var l, right := LeftFree(h.blocks, a), FreeRight(h.blocks, a);
            var free := if right then Without(h.free, Next(h.blocks, a)) else h.free;
            (if l != 0 then Without(free, l) else free)
            == Kept(h.free, (if right then {Next(h.blocks, a)} else {}) + (if l != 0 then {l} else {}))
  {
    hide Tiles, BreakAt, Kept, Without;
    TwoKept(h.free, Next(h.blocks, a), LeftFree(h.blocks, a), FreeRight(h.blocks, a), LeftFree(h.blocks, a) != 0);
  }

  lemma TwoKept(free: seq<int>, r: int, l: int, right: bool, left: bool)
    requires Distinct(free)
    ensures var some := if right then Without(free, r) else free;
            (if left then Without(some, l) else some)
            == Kept(free, (if right then {r} else {}) + (if left then {l} else {}))
  {
    hide Kept, Without, Distinct;
    var one, two := if right then {r} else {}, if left then {l} else {};
    KeptTwice(free, one, two);
    KeptAll(free, {});
    KeptOne(free, r);
    var some := if right then Without(free, r) else free;
    assert some == Kept(free, one);
    WithoutDistinct(free, r);
    KeptOne(some, l);
    KeptAll(some, {});
  }

  lemma WithoutDistinct(free: seq<int>, x: int)
    requires Distinct(free)
    ensures Distinct(Without(free, x))
  {
    hide Kept, Without;
    if x in free {
      var k :| 0 <= k < |free| && free[k] == x;
      WithoutAt(free, k);
    } else {
      KeptAll(free, {x});
      KeptOne(free, x);
    }
  }

  lemma FusedBlocks(h: Heap, a: int)
    requires h.Valid() && a in h.blocks && h.blocks[a].used && a + 4 != 0
    requires var l := LeftFree(h.blocks, a); LeftFree(MergeRight(h, a).blocks, a) == l < a < Next(h.blocks, a)
    ensures var l, right := LeftFree(h.blocks, a), FreeRight(h.blocks, a);
            var gone := (if right then {Next(h.blocks, a)} else {}) + (if l != 0 then {l} else {});
            var s := if l != 0 then l else a;
            && Fused(h.blocks, Free(h, a + 4).blocks, gone + {a}, s)
            && (Free(h, a + 4).blocks[s].foot <==> gone == {})
  {
    hide Listed, BreakAt, Tiles;
    var L, M := h.blocks, Free(h, a + 4).blocks;
    var l, r, right := LeftFree(L, a), Next(L, a), FreeRight(L, a);
    ShapedAll(L, h.Lo(), h.Top());
  }

  // --- realloc -------------------------------------------------------------------

  /** The 32-bit mask keeps the low half of what malloc would round to. */
  lemma NewSizeIs(size: int)
    requires 0 <= size < SIZE_LIMIT
    ensures NewSize(size) == Need(size) % TAG_LIMIT
  {
    var n := size + 23;
    assert n % SIZE_LIMIT % TAG_LIMIT == n % TAG_LIMIT;
    RoundedLow(n % SIZE_LIMIT);
  }

  lemma RoundedLow(n: nat)
    ensures RoundDown16(n % TAG_LIMIT) == RoundDown16(n) % TAG_LIMIT
  {
    var q, r := n / TAG_LIMIT, n % TAG_LIMIT;
    assert n == q * TAG_LIMIT + r;
    assert n / 16 == q * (TAG_LIMIT / 16) + r / 16;
    assert n / 16 * 16 == q * TAG_LIMIT + r / 16 * 16;
  }

  /** Block a is large enough, or another starts where it ends, that one's header flag is
      clear, and both together are large enough. */
  ghost predicate HasRoom(L: Blocks, a: int, new_: int) {
    && a in L
    && var r := a + L[a].size;
       new_ <= L[a].size || (r in L && !L[r].used && L[a].size + L[r].size >= new_)
  }

  /** realloc to a size that makes a block returns the pointer it was given exactly when there
      is room where it stands. */
  lemma ReallocStays(h: Heap, p: int, size: int)
    requires h.Valid() && p != 0 && p - 4 in h.blocks && h.blocks[p - 4].used
    requires 0 < size < SIZE_LIMIT && NewSize(size) >= MIN_BLOCK
    ensures Realloc(h, p, size).1 == p <==> HasRoom(h.blocks, p - 4, NewSize(size))
  {
    hide Heap.Valid, Move, NewSize;
    UsedAt(h.blocks, p - 4);
    MoveValid(h, p, size);
  }

  /** In place the block is just the new size. What is left of it, or of it and the right
      neighbour, is one free block, first on the list. */
  lemma ReallocInPlace(h: Heap, p: int, size: int)
    requires h.Valid() && p != 0 && p - 4 in h.blocks && h.blocks[p - 4].used
    requires 0 < size < SIZE_LIMIT && NewSize(size) >= MIN_BLOCK && Realloc(h, p, size).1 == p
    ensures var a, g, n := p - 4, Realloc(h, p, size).0, NewSize(size);
            var gone := if n <= h.blocks[a].size then {} else {Next(h.blocks, a)};
            && gone <= h.blocks.Keys && g.base == h.base && g.cur == h.cur
            && var end := if gone == {} then Next(h.blocks, a) else Next(h.blocks, Next(h.blocks, a));
               var L := (h.blocks - gone)[a := Block(n, true, true)];
               && (end == a + n ==> g.blocks == L && g.free == Kept(h.free, gone))
               && (end != a + n ==> g.blocks == L[a + n := Block(end - a - n, false, false)]
                                    && g.free == [a + n] + Kept(h.free, gone))
  {
    hide Heap.Valid, Move, NewSize, Kept, Without, Free;
    var a, n := p - 4, NewSize(size);
    ReallocStays(h, p, size);
    KeptAll(h.free, {});
    KeptNext(h, a);
    SizeOf16(h, a, n);
    if n > h.blocks[a].size { SumSize16(h, a, n); }
  }

  lemma KeptNext(h: Heap, a: int)
    requires h.Valid() && a in h.blocks
    ensures Kept(h.free, {Next(h.blocks, a)}) == Without(h.free, Next(h.blocks, a))
    ensures h.blocks[a].used ==> h.blocks[a].foot
  {
    hide Tiles;
    KeptOne(h.free, Next(h.blocks, a));
    BlockInside(h.blocks, h.Lo(), h.Top(), a);
  }

  lemma SumSize16(h: Heap, a: int, n: int)
    requires h.Valid() && a in h.blocks && Next(h.blocks, a) in h.blocks && n % 16 == 0
    ensures var sum := h.blocks[a].size + h.blocks[Next(h.blocks, a)].size; n <= sum < n + MIN_BLOCK ==> sum == n
  {
    hide Tiles, Listed, BreakAt, ArenaAt;
    BlockInside(h.blocks, h.Lo(), h.Top(), a);
    BlockInside(h.blocks, h.Lo(), h.Top(), Next(h.blocks, a));
    SumOf16(h.blocks[a].size, h.blocks[Next(h.blocks, a)].size);
    SumOf16(h.blocks[a].size + h.blocks[Next(h.blocks, a)].size, n);
  }

  /** Otherwise it is malloc of the rounded size and, if that gives a pointer, free. */
  lemma ReallocMoves(h: Heap, p: int, size: int)
    requires h.Valid() && p != 0 && p - 4 in h.blocks && h.blocks[p - 4].used
    requires 0 < size < SIZE_LIMIT && NewSize(size) >= MIN_BLOCK && Realloc(h, p, size).1 != p
    ensures var (g, q) := Malloc(h, NewSize(size));
            Realloc(h, p, size) == if q == 0 then (g, 0) else (Free(g, p), q)
  {
  }

  /** Growing over a block that free left with its footer flag set: two blocks of 8 bytes,
      the second freed, the first grown to 24 bytes where it stands. */
  lemma GrowsOverStale(base: int)
    requires ArenaAt(base)
    ensures var a := base + FIRST_PAD;
            var ops := [OpMalloc(8), OpMalloc(8), OpFree(a + 20), OpRealloc(a + 4, 24)];
            && AllAllowed(Empty(base), ops)
            && Run(Empty(base), ops) == Heap(base, map[a := Block(32, true, true)], [], a + 32)
    ensures var (h, p) := Malloc(Empty(base), 8);
            var (g, q) := Malloc(h, 8);
            p == base + 16 && p - 4 in Free(g, q).blocks && Realloc(Free(g, q), p, 24).1 == p
  {
    hide Free, Heap.Valid, Realloc;
    var a := base + FIRST_PAD;
    var ops := [OpMalloc(8), OpMalloc(8), OpFree(a + 20), OpRealloc(a + 4, 24)];
    TwoSmall(base);
    StaleRight(base);
    assert Need(8) == 16;
    var h1 := Apply(Empty(base), ops[0]).0;
    var h2 := Apply(h1, ops[1]).0;
    var h3 := Apply(h2, ops[2]).0;
    UsedAt(h3.blocks, a);
    FourSteps(Empty(base), ops);
  }

  lemma StaleRight(base: int)
    requires ArenaAt(base)
    ensures var a := base + FIRST_PAD;
            var g := Heap(base, map[a := Block(16, true, true), a + 16 := Block(16, true, true)], [], a + 32);
            var h := Heap(base, map[a := Block(16, true, true), a + 16 := Block(16, false, true)], [a + 16], a + 32);
            && Free(g, a + 20) == h && NewSize(24) == 32
            && Realloc(h, a + 4, 24) == (Heap(base, map[a := Block(32, true, true)], [], a + 32), a + 4)
  {
    var a := base + FIRST_PAD;
    var g := Heap(base, map[a := Block(16, true, true), a + 16 := Block(16, true, true)], [], a + 32);
    var m := MergeRight(g, a + 16);
    assert m.blocks == map[a := Block(16, true, true), a + 16 := Block(16, false, true)];
    assert LeftFree(m.blocks, a + 16) == 0;
    assert (m.blocks - {a + 16})[a := Block(32, true, true)] == map[a := Block(32, true, true)];
    assert [a + 16] + [] == [a + 16] && [a + 16][1..] == [];
  }
}
