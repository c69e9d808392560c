/** Free lists and block placement, as far as both allocators share them. */
module FreeLists {
  import opened Memory
  import opened Layout
  import opened Format

  /** The free list holds each header-free block of L exactly once. */
  ghost predicate Listed(L: Blocks, free: seq<int>) {
    && Distinct(free)
    && (forall k :: 0 <= k < |free| ==> free[k] in L && !L[free[k]].used)
    && (forall a :: a in L && !L[a].used ==> a in free)
  }

  /** `(size + 4 + 4 + 15) & ~15` in 64-bit arithmetic. */
  function Need(size: int): (need: int)
    requires 0 <= size < SIZE_LIMIT
    ensures need % 16 == 0 && 0 <= need < SIZE_LIMIT
    ensures size + 23 < SIZE_LIMIT ==> MIN_BLOCK <= need && size + OVERHEAD <= need
  {
    RoundDown16((size + 23) % SIZE_LIMIT)
  }

  /** The sizes malloc's own steps can handle: the rounded size makes a block, and the
      address sum at `top`, where the next block would start, does not wrap. */
  predicate Sane(top: int, size: int) {
    0 <= size < SIZE_LIMIT && MIN_BLOCK <= Need(size) && top + Need(size) < SIZE_LIMIT
  }

  /** The sizes malloc's arithmetic gets right: the rounding does not wrap either. */
  predicate Requestable(top: int, size: int) {
    0 <= size && size + 23 < SIZE_LIMIT && top + Need(size) < SIZE_LIMIT
  }

  /** What malloc returns, how many payload bytes the header word below that pointer
      claims, and where the break is then. */
  datatype Outcome = Outcome(p: int, room: int, cur: int)

  /** malloc at sizes that are not sane, where `head` is the first node of the list it
      searches, or 0, and `chunk` its size. A rounded size of 0, and one to which adding
      16 wraps to 0, take the first node whatever its size; otherwise no node is large
      enough, and the wrapped address sum passes the bounds test. */
  function Wrapped(base: int, cur: int, head: int, chunk: int, need: int): Outcome {
    if head != 0 && need == 0 then Outcome(head + 4, chunk - OVERHEAD, cur)
    else if head != 0 && need + 16 == SIZE_LIMIT then Outcome(head + 4, need % TAG_LIMIT - OVERHEAD, cur)
    else
      var top := Top(base, cur);
      Outcome(top + 4, need % TAG_LIMIT - OVERHEAD, (top + need) % SIZE_LIMIT)
  }

  /** Whatever a wrapped malloc returns, it is not null and does not hold the request. */
  lemma WrappedHolds(base: int, cur: int, head: int, chunk: int, size: int)
    requires 0 <= size < SIZE_LIMIT && 0 <= base && base + ARENA_SIZE <= USER_LIMIT && 0 <= cur <= base + ARENA_SIZE
    requires head >= 0 && chunk < TAG_LIMIT && !Sane(Top(base, cur), size)
    ensures var o := Wrapped(base, cur, head, chunk, Need(size)); o.p != 0 && o.room < size
  {
    if size + 23 >= SIZE_LIMIT {
      assert (size + 23) % SIZE_LIMIT == size + 23 - SIZE_LIMIT;
    }
  }

  /** Where the rounding wraps, what is left rounds to 0 or 16. */
  lemma NeedWrapped(size: int)
    requires 0 <= size < SIZE_LIMIT && size + 23 >= SIZE_LIMIT
    ensures Need(size) == 0 || Need(size) == 16
  {
    assert (size + 23) % SIZE_LIMIT == size + 23 - SIZE_LIMIT;
  }

  lemma NotSmallest(top: int, base: int, size: int)
    requires 0 <= size < SIZE_LIMIT && !Sane(top, size) && top <= base + ARENA_SIZE + FIRST_PAD
             && base + ARENA_SIZE <= USER_LIMIT
    ensures Need(size) != MIN_BLOCK && !Requestable(top, size)
  {
  }

  /** A request that malloc's arithmetic gets wrong is so large that it does not fit between
      any payload and the end of the arena. */
  lemma TooLarge(base: int, top: int, size: int, p: int)
    requires 0 <= size < SIZE_LIMIT && !Requestable(top, size) && top <= base + ARENA_SIZE <= USER_LIMIT
             && base + 16 <= p
    ensures p + size > base + ARENA_SIZE
  {
    NeedExact(size);
  }

  function Lesser(x: int, y: int): int {
    if x < y then x else y
  }

  function SizeOf(L: Blocks, a: int): int {
    if a in L then L[a].size else 0
  }

  /** First index from k on of a block that can hold `need`; |free| if none. */
  function Fit(L: Blocks, free: seq<int>, need: int, k: nat): (r: nat)
    requires k <= |free|
    ensures k <= r <= |free|
    ensures forall j :: k <= j < r ==> SizeOf(L, free[j]) < need
    ensures r < |free| ==> SizeOf(L, free[r]) >= need
    decreases |free| - k
  {
    if k == |free| || SizeOf(L, free[k]) >= need then k else Fit(L, free, need, k + 1)
  }

  lemma RemoveAtListed(L: Blocks, free: seq<int>, k: nat)
    requires Listed(L, free) && k < |free|
    ensures free[k] !in RemoveAt(free, k)
    ensures Listed(L - {free[k]}, RemoveAt(free, k))
  {
    var r := RemoveAt(free, k);
    forall a | a in L && !L[a].used && a != free[k] ensures a in r {
      var i :| 0 <= i < |free| && free[i] == a;
      assert r[if i < k then i else i - 1] == a;
    }
  }

  lemma PushListed(L: Blocks, free: seq<int>, x: int, b: Block)
    requires Listed(L - {x}, free) && !b.used
    ensures x !in free
    ensures Listed(L[x := b], [x] + free)
  {
    var r := [x] + free;
    forall a | a in L && !L[a].used && a != x ensures a in r {
      assert a in L - {x};
      assert a in free;
    }
  }

  /** A block in use is on no list. */
  lemma UseListed(L: Blocks, free: seq<int>, a: int, b: Block)
    requires Listed(L - {a}, free) && b.used
    ensures Listed(L[a := b], free)
  {
    forall x | x in L && !L[x].used && x != a ensures x in free {
      assert x in L - {a};
    }
  }

  lemma PlacedTiles(L: Blocks, lo: int, hi: int, a: int, need: int)
    requires Tiles(L, lo, hi) && a in L
    requires MIN_BLOCK <= need <= L[a].size && need % 16 == 0
    ensures Tiles(Placed(L, a, need), lo, hi)
    ensures L[a].size >= need + MIN_BLOCK ==> a + need !in L
    ensures L[a].size < need + MIN_BLOCK ==> L[a].size == need
  {
    hide Tiles;
    var size := L[a].size;
    BlockInside(L, lo, hi, a);
    SumOf16(size, need);
    if size >= need + MIN_BLOCK {
      SplitTiles(L, lo, hi, a, Block(need, true, true), Block(size - need, false, false));
    } else {
      RetagTiles(L, lo, hi, a, Block(size, true, true));
    }
  }

  /** The blocks in use: what the client sees. */
  ghost function Used(L: Blocks): Blocks {
    map a | a in L && L[a].used :: L[a]
  }

  lemma UsedAt(L: Blocks, a: int)
    ensures a in Used(L) <==> a in L && L[a].used
    ensures a in Used(L) ==> Used(L)[a] == L[a]
  {
  }

  lemma CarvedUsed(L: Blocks, a: int, need: int)
    requires a !in L
    ensures a !in Used(L) && Used(L[a := Block(need, true, true)]) == Used(L)[a := Block(need, true, true)]
  {
  }

  /** The top of the heap is a place for a header, and so is the end of a block there. */
  lemma TopAligned(base: int, cur: int, need: int)
    requires ArenaAt(base) && BreakAt(base, cur) && need % 16 == 0
    ensures Aligned(base + FIRST_PAD) && Aligned(Top(base, cur)) && Aligned(Top(base, cur) + need) && Top(base, cur) > 0
  {
    AlignedStep(Top(base, cur), need);
  }

  lemma PlacedUsed(L: Blocks, a: int, need: int)
    requires a in L && !L[a].used
    requires L[a].size >= need + MIN_BLOCK ==> a + need !in L && need > 0
    requires L[a].size < need + MIN_BLOCK ==> L[a].size == need
    ensures a !in Used(L)
    ensures Used(Placed(L, a, need)) == Used(L)[a := Block(need, true, true)]
  {
  }

  /** Where malloc's 64-bit sum wraps. */
  lemma NeedExact(size: int)
    requires 0 <= size < SIZE_LIMIT
    ensures Need(size) - OVERHEAD >= size <==> size + 23 < SIZE_LIMIT
    ensures size + 23 < SIZE_LIMIT ==> size + OVERHEAD <= Need(size) < size + OVERHEAD + 16
  {
    if size + 23 >= SIZE_LIMIT {
      assert (size + 23) % SIZE_LIMIT == size + 23 - SIZE_LIMIT;
    }
  }

  /** A block in use may leave the layout without touching the list. */
  lemma DropUsed(L: Blocks, free: seq<int>, a: int, b: Block)
    requires Listed(L, free) && a in L && L[a].used
    ensures Listed(L[a := b] - {a}, free)
  {
  }

  /** calloc's division test is true exactly when the product overflows. */
  lemma OverflowTest(n: int, size: int)
    requires 0 < n && 0 < size
    ensures n > (SIZE_LIMIT - 1) / size <==> n * size >= SIZE_LIMIT
    ensures 0 < n * size
  {
    var q := (SIZE_LIMIT - 1) / size;
    QuotientBounds(SIZE_LIMIT - 1, size);
    Monotone(1, n, size);
    if n > q {
      Monotone(q + 1, n, size);
    } else {
      Monotone(n, q, size);
    }
  }

  lemma QuotientBounds(x: int, d: int)
    requires d > 0
    ensures x / d * d <= x < (x / d + 1) * d
  {
  }

  lemma Monotone(x: int, y: int, z: int)
    requires x <= y && z >= 0
    ensures x * z <= y * z
  {
  }

  /** Allocate at q, copy n payload bytes from p, free p: p's bytes are at q and every
      other payload in use is as it was. */
  lemma MoveKeeps(L: Blocks, G: Blocks, p: int, q: int, n: int, m: Bytes, m1: Bytes, m2: Bytes, m3: Bytes)
    requires |m| == |m1| == |m2| == |m3|
    requires p - 4 in Used(L) && q - 4 !in Used(L)
    requires q - 4 in G && Used(G) == Used(L)[q - 4 := G[q - 4]]
    requires n <= G[q - 4].size - OVERHEAD && n <= L[p - 4].size - OVERHEAD
    requires KeepsPayloads(m, m1, Used(L)) && KeepsPayloads(m, m2, Used(L))
    requires KeepsPayloads(m2, m3, Used(G) - {p - 4})
    requires Copied(m1, m2, p, q, n)
    ensures KeepsPayloads(m, m3, Used(L) - {p - 4})
    ensures Copied(m, m3, p, q, n)
  {
    var U := Used(L);
    KeepsWithin(m, m2, U - {p - 4}, U);
    KeepsWithin(m2, m3, U - {p - 4}, Used(G) - {p - 4});
    KeepsTrans(m, m2, m3, U - {p - 4});
    assert SameBytes(m, m1, p, U[p - 4].size - OVERHEAD);
    assert q - 4 in Used(G) - {p - 4};
    assert SameBytes(m2, m3, q, G[q - 4].size - OVERHEAD);
  }
}
