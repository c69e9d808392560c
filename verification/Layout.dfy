/** The shape both allocators share: boundary-tagged blocks packed in the arena.

    A layout maps the address of each block's header to the block. The flag in
    the header and the flag in the footer are kept apart because free clears
    only the one in the header.
 */
module Layout {

  const ARENA_SIZE: nat := 0x1_0000_0000
  const SIZE_LIMIT: nat := 0x1_0000_0000_0000_0000  // size_t and pointers are 64 bits wide
  const USER_LIMIT: nat := 0x8000_0000_0000_0000    // user addresses stop here
  const TAG_LIMIT: nat := 0x1_0000_0000             // tags are 32 bits wide
  const MIN_BLOCK: nat := 16
  const OVERHEAD: nat := 8                          // one header and one footer word
  const FIRST_PAD: nat := 12                        // alignment padding before the first header

  datatype Block = Block(size: int, used: bool, foot: bool) {
    predicate Shaped() {
      size >= MIN_BLOCK && size % 16 == 0 && (used ==> foot)
    }
  }

  /** The reservation: page-aligned, hence 16-aligned, in the user half of the
      address space and not at address 0. */
  predicate ArenaAt(base: int) {
    16 <= base && base % 16 == 0 && base + ARENA_SIZE <= USER_LIMIT
  }

  /** Headers sit 4 bytes below a 16-byte boundary, so payloads are aligned. */
  predicate Aligned(header: int) {
    header % 16 == 12
  }

  type Blocks = map<int, Block>

  function RoundDown16(n: nat): (r: nat)
    ensures r % 16 == 0 && r <= n < r + 16
  {
    n / 16 * 16
  }

  lemma SumOf16(x: int, y: int)
    requires x % 16 == 0 && y % 16 == 0
    ensures (x + y) % 16 == 0 && (x - y) % 16 == 0
  {
  }

  lemma WholeShaped(x: Block, y: Block, whole: Block)
    requires x.Shaped() && y.Shaped()
    requires whole.size == x.size + y.size && (whole.used ==> whole.foot)
    ensures whole.Shaped() && x.size > 0 && y.size > 0
  {
  }

  lemma AlignedStep(a: int, n: int)
    requires Aligned(a) && n % 16 == 0
    ensures Aligned(a + n)
  {
  }

  /** Each block is well shaped, a clear footer flag means a clear header flag,
      and no two blocks overlap. */
  ghost predicate Packed(L: Blocks) {
    && (forall a :: a in L ==> Aligned(a) && L[a].Shaped())
    && Apart(L)
  }

  ghost predicate Apart(L: Blocks) {
    forall a, c :: a in L && c in L && a < c ==> a + L[a].size <= c
  }

  /** Address just past the block at a. */
  function Next(L: Blocks, a: int): int
    requires a in L
  {
    a + L[a].size
  }

  /** The blocks lie in [lo, hi) and each is followed by another or by hi. */
  ghost predicate Linked(L: Blocks, lo: int, hi: int) {
    && lo <= hi
    && (lo == hi || lo in L)
    && (forall a :: a in L ==> lo <= a < hi)
    && (forall a {:trigger Next(L, a)} :: a in L ==> Next(L, a) <= hi && (Next(L, a) == hi || Next(L, a) in L))
  }

  ghost predicate Tiles(L: Blocks, lo: int, hi: int) {
    Packed(L) && Linked(L, lo, hi)
  }

  /** Every block but the first is preceded, with no gap, by another block. */
  lemma {:induction false} LeftNeighbour(L: Blocks, lo: int, hi: int, from: int, a: int) returns (l: int)
    requires Tiles(L, lo, hi)
    requires from in L && a in L && from < a
    ensures l in L && Next(L, l) == a
    decreases a - from
  {
    assert Next(L, from) <= a;
    if Next(L, from) == a {
      l := from;
    } else {
      l := LeftNeighbour(L, lo, hi, Next(L, from), a);
    }
  }

  lemma BlockInside(L: Blocks, lo: int, hi: int, a: int)
    requires Tiles(L, lo, hi) && a in L
    ensures Aligned(a) && L[a].Shaped() && lo <= a && a + L[a].size <= hi
  {
    assert Next(L, a) <= hi;
  }

  /** A block size fits in a 32-bit tag with room for the flag. */
  lemma SizeFitsTag(L: Blocks, base: int, hi: int, a: int)
    requires Tiles(L, base + FIRST_PAD, hi) && hi <= base + ARENA_SIZE && base % 16 == 0
    requires a in L
    ensures L[a].size <= TAG_LIMIT - 16
  {
    BlockInside(L, base + FIRST_PAD, hi, a);
  }

  /** Where the next block would start: the break, padded once at the bottom. */
  function Top(base: int, cur: int): int {
    if cur > base then cur else base + FIRST_PAD
  }

  /** The break is unset, at the base, or aligned above the first padding. */
  predicate BreakAt(base: int, cur: int) {
    cur == 0 || cur == base || (base + FIRST_PAD < cur <= base + ARENA_SIZE && Aligned(cur))
  }

  /** The blocks once `need` bytes of block a are put in use, splitting off the
      rest when it can stand as a block of its own. */
  function Placed(L: Blocks, a: int, need: int): Blocks
    requires a in L
  {
    if L[a].size >= need + MIN_BLOCK then
      L[a := Block(need, true, true)][a + need := Block(L[a].size - need, false, false)]
    else
      L[a := Block(L[a].size, true, true)]
  }

  // --- how a layout changes ------------------------------------------------

  lemma ApartFrom(L: Blocks, x: int, y: int)
    requires Apart(L) && x in L && y in L && x < y
    ensures x + L[x].size <= y
  {
  }

  lemma NextInjective(L: Blocks, x: int, y: int)
    requires Packed(L) && x in L && y in L && Next(L, x) == Next(L, y)
    ensures x == y
  {
    assert L[x].Shaped() && L[y].Shaped();
    if x < y { ApartFrom(L, x, y); }
    if y < x { ApartFrom(L, y, x); }
  }

  lemma SplitApart(L: Blocks, a: int, b: int, front: Block, back: Block)
    requires Packed(L) && a in L && a < b == a + front.size && back.size > 0
    requires front.size + back.size == L[a].size
    ensures b !in L
    ensures Apart(L[a := front][b := back])
  {
    if b in L { ApartFrom(L, a, b); }
    var M := L[a := front][b := back];
    forall x, y | x in M && y in M && x < y ensures x + M[x].size <= y {
      if x == b { ApartFrom(L, a, y); }
      else if y == b { if x != a { ApartFrom(L, x, a); } }
      else { ApartFrom(L, x, y); }
    }
  }

  lemma SplitPacked(L: Blocks, a: int, b: int, front: Block, back: Block)
    requires Packed(L) && a in L && b == a + front.size
    requires front.Shaped() && back.Shaped() && front.size + back.size == L[a].size
    ensures b !in L && Packed(L[a := front][b := back])
  {
    hide Aligned, Apart;
    SplitApart(L, a, b, front, back);
    AlignedStep(a, front.size);
    hide Block.Shaped;
  }

  lemma SplitLinked(L: Blocks, lo: int, hi: int, a: int, b: int, front: Block, back: Block)
    requires Linked(L, lo, hi) && a in L && b == a + front.size && b !in L
    requires front.size > 0 && back.size > 0 && front.size + back.size == L[a].size
    ensures Linked(L[a := front][b := back], lo, hi)
  {
    var M := L[a := front][b := back];
    assert a < b < Next(L, a) <= hi;
    forall x | x in M ensures Next(M, x) <= hi && (Next(M, x) == hi || Next(M, x) in M) {
      if x == b {
        assert Next(M, x) == Next(L, a);
      } else if x != a {
        assert Next(M, x) == Next(L, x);
      }
    }
  }

  /** Cutting a block in two. */
  lemma SplitTiles(L: Blocks, lo: int, hi: int, a: int, front: Block, back: Block)
    requires Tiles(L, lo, hi) && a in L
    requires front.Shaped() && back.Shaped()
    requires front.size + back.size == L[a].size
    ensures a + front.size !in L
    ensures Tiles(L[a := front][a + front.size := back], lo, hi)
  {
    hide Packed, Linked;
    SplitPacked(L, a, a + front.size, front, back);
    SplitLinked(L, lo, hi, a, a + front.size, front, back);
  }

  lemma MergeApart(L: Blocks, a: int, b: int, whole: Block)
    requires Packed(L) && a in L && b in L && Next(L, a) == b
    requires whole.size == L[a].size + L[b].size
    ensures Apart((L - {b})[a := whole])
  {
    var M := (L - {b})[a := whole];
    assert L[a].Shaped();
    forall x, y | x in M && y in M && x < y ensures x + M[x].size <= y {
      ApartFrom(L, x, y);
      if x == a { ApartFrom(L, b, y); }
    }
  }

  /** Absorbing the right neighbour. */
  lemma MergeTiles(L: Blocks, lo: int, hi: int, a: int, b: int, whole: Block)
    requires Tiles(L, lo, hi) && a in L && b in L && Next(L, a) == b
    requires whole.size == L[a].size + L[b].size && (whole.used ==> whole.foot)
    ensures Tiles((L - {b})[a := whole], lo, hi)
  {
    var M := (L - {b})[a := whole];
    hide Aligned, Block.Shaped;
    MergeApart(L, a, b, whole);
    WholeShaped(L[a], L[b], whole);
    forall x | x in M ensures Next(M, x) <= hi && (Next(M, x) == hi || Next(M, x) in M) {
      if x == a {
        assert Next(M, x) == Next(L, b);
      } else {
        assert Next(M, x) == Next(L, x);
        if Next(L, x) == b { NextInjective(L, x, a); }
      }
    }
  }

  /** Changing flags only. */
  lemma RetagTiles(L: Blocks, lo: int, hi: int, a: int, b: Block)
    requires Tiles(L, lo, hi) && a in L
    requires b.size == L[a].size && (b.used ==> b.foot)
    ensures Tiles(L[a := b], lo, hi)
  {
    var M := L[a := b];
    forall x | x in M ensures Next(M, x) <= hi && (Next(M, x) == hi || Next(M, x) in M) {
      assert Next(M, x) == Next(L, x);
    }
  }

  lemma ExtendPacked(L: Blocks, lo: int, hi: int, b: Block)
    requires Packed(L) && Linked(L, lo, hi) && Aligned(hi) && b.Shaped()
    ensures hi !in L && Packed(L[hi := b])
  {
    hide Aligned, Block.Shaped;
    forall x | x in L ensures x + L[x].size <= hi {
      assert Next(L, x) <= hi;
    }
  }

  lemma ExtendLinked(L: Blocks, lo: int, hi: int, b: Block)
    requires Linked(L, lo, hi) && b.size > 0
    ensures Linked(L[hi := b], lo, hi + b.size)
  {
    var M := L[hi := b];
    forall x | x in M ensures Next(M, x) <= hi + b.size && (Next(M, x) == hi + b.size || Next(M, x) in M) {
      if x != hi {
        assert Next(M, x) == Next(L, x);
      }
    }
  }

  /** Carving a new block at the top. */
  lemma ExtendTiles(L: Blocks, lo: int, hi: int, b: Block)
    requires Tiles(L, lo, hi) && lo % 16 == 12 && hi % 16 == 12
    requires b.Shaped()
    ensures hi !in L
    ensures Tiles(L[hi := b], lo, hi + b.size)
  {
    hide Packed, Linked;
    ExtendPacked(L, lo, hi, b);
    ExtendLinked(L, lo, hi, b);
  }

  /** Shortening a block leaves a gap but no overlap. */
  lemma FrontPacked(L: Blocks, a: int, front: Block)
    requires Packed(L) && a in L && front.Shaped() && front.size <= L[a].size
    ensures Packed(L[a := front])
  {
  }

  // --- sums along the linear walk ------------------------------------------

  /** Total size of the blocks in [a, hi) that are in use, walking block by
      block from a as check_invariant does. */
  function UsedBytes(L: Blocks, a: int, hi: int): int
    decreases hi - a
  {
    if a < hi && a in L && L[a].size > 0 then
      (if L[a].used then L[a].size else 0) + UsedBytes(L, Next(L, a), hi)
    else 0
  }

  function FreeBytes(L: Blocks, a: int, hi: int): int
    decreases hi - a
  {
    if a < hi && a in L && L[a].size > 0 then
      (if L[a].used then 0 else L[a].size) + FreeBytes(L, Next(L, a), hi)
    else 0
  }

  /** Conservation: every byte between the first header and the break belongs to
      exactly one block. */
  lemma {:induction false} BytesConserved(L: Blocks, lo: int, hi: int, a: int)
    requires Tiles(L, lo, hi)
    requires a in L || a == hi
    ensures UsedBytes(L, a, hi) + FreeBytes(L, a, hi) == hi - a
    decreases hi - a
  {
    if a != hi {
      assert Next(L, a) <= hi;
      BytesConserved(L, lo, hi, Next(L, a));
    }
  }

  lemma {:induction false} UsedBytesSame(L: Blocks, M: Blocks, a: int, hi: int)
    requires forall x :: a <= x < hi ==> (x in L <==> x in M) && (x in L ==> L[x] == M[x])
    ensures UsedBytes(L, a, hi) == UsedBytes(M, a, hi)
    decreases hi - a
  {
    if a < hi && a in L && L[a].size > 0 {
      UsedBytesSame(L, M, Next(L, a), hi);
    }
  }

  /** The walk may be cut at any block boundary. */
  lemma {:induction false} UsedBytesCut(L: Blocks, lo: int, hi: int, a: int, x: int)
    requires Tiles(L, lo, hi)
    requires a in L || a == hi
    requires x in L || x == hi
    requires a <= x
    ensures UsedBytes(L, a, hi) == UsedBytes(L, a, x) + UsedBytes(L, x, hi)
    decreases x - a
  {
    if a < x {
      assert Next(L, a) <= x by { assert Next(L, a) <= hi; }
      UsedBytesCut(L, lo, hi, Next(L, a), x);
    }
  }

  /** Starts of the free blocks in [a, hi), in address order. */
  function FreeStarts(L: Blocks, a: int, hi: int): seq<int>
    decreases hi - a
  {
    if a < hi && a in L && L[a].size > 0 then
      (if L[a].used then [] else [a]) + FreeStarts(L, Next(L, a), hi)
    else []
  }

  /** The walk meets every free block once, in ascending order. */
  lemma {:induction false} FreeStartsAll(L: Blocks, lo: int, hi: int, a: int)
    requires Tiles(L, lo, hi) && (a in L || a == hi)
    ensures forall x :: x in FreeStarts(L, a, hi) <==> x in L && !L[x].used && a <= x
    ensures forall i, j :: 0 <= i < j < |FreeStarts(L, a, hi)| ==> FreeStarts(L, a, hi)[i] < FreeStarts(L, a, hi)[j]
    decreases hi - a
  {
    if a in L {
      var b := Next(L, a);
      assert L[a].Shaped() && b <= hi && (b == hi || b in L);
      FreeStartsAll(L, lo, hi, b);
      forall x | x in L && !L[x].used && a < x ensures b <= x {
        ApartFrom(L, a, x);
      }
      var rest := FreeStarts(L, b, hi);
      assert forall i :: 0 <= i < |rest| ==> rest[i] in rest;
    }
  }
}
