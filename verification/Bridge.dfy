/** From blocks in use to what the client sees. */
module Bridge {
  import opened Memory
  import opened Layout
  import opened Format
  import opened FreeLists
  import opened ClientStore

  /** Payload pointers and lengths of the blocks in use. */
  ghost function LiveOf(U: Blocks): map<int, int> {
    map p | p in Payloads(U) :: U[p - 4].size - OVERHEAD
  }

  ghost function Payloads(U: Blocks): (ps: set<int>)
    ensures forall p :: p in ps <==> p - 4 in U
  {
    var ps := set a | a in U :: a + 4;
    assert forall a :: a in U ==> a + 4 in ps;
    ps
  }

  ghost function ViewOf(m: Bytes, U: Blocks): View {
    View(m, LiveOf(U))
  }

  lemma LiveAt(U: Blocks, p: int)
    ensures p in LiveOf(U) <==> p - 4 in U
    ensures p in LiveOf(U) ==> LiveOf(U)[p] == U[p - 4].size - OVERHEAD
  {
    hide Payloads;
  }

  lemma LiveAdd(U: Blocks, a: int, b: Block)
    ensures LiveOf(U[a := b]) == LiveOf(U)[a + 4 := b.size - OVERHEAD]
  {
    hide LiveOf;
    var A, B := LiveOf(U[a := b]), LiveOf(U)[a + 4 := b.size - OVERHEAD];
    forall p | p in A || p in B ensures p in A && p in B && A[p] == B[p] {
      LiveAt(U, p);
      LiveAt(U[a := b], p);
    }
  }

  lemma LiveDrop(U: Blocks, a: int)
    ensures LiveOf(U - {a}) == LiveOf(U) - {a + 4}
  {
    hide LiveOf;
    var A, B := LiveOf(U - {a}), LiveOf(U) - {a + 4};
    forall p | p in A || p in B ensures p in A && p in B && A[p] == B[p] {
      LiveAt(U, p);
      LiveAt(U - {a}, p);
    }
  }

  /** Disjoint aligned blocks give disjoint aligned payloads. */
  lemma ViewValid(m: Bytes, U: Blocks)
    requires Packed(U) && Fits(U, |m|)
    ensures ViewOf(m, U).Valid()
  {
    hide LiveOf;
    var v := ViewOf(m, U);
    forall p | p in v.live ensures 0 < p && p % 16 == 0 && 0 < v.live[p] && p + v.live[p] <= |m| {
      LiveAt(U, p);
      assert Aligned(p - 4) && U[p - 4].Shaped();
    }
    hide Aligned, Block.Shaped, Fits;
    forall p, q | p in v.live && q in v.live && p < q ensures p + v.live[p] <= q {
      LiveAt(U, p);
      LiveAt(U, q);
      ApartFrom(U, p - 4, q - 4);
    }
  }

  lemma OthersFrom(m: Bytes, r: Bytes, U: Blocks, w: View, except: set<int>)
    requires w.mem == r
    requires forall a :: a in U && a + 4 !in except ==> SameBytes(m, r, a + 4, U[a].size - OVERHEAD)
    ensures OthersKept(ViewOf(m, U), w, except)
  {
    hide LiveOf, SameBytes;
    var v := ViewOf(m, U);
    forall p | p in v.live && p !in except ensures SameBytes(m, r, p, v.live[p]) {
      LiveAt(U, p);
      assert SameBytes(m, r, (p - 4) + 4, U[p - 4].size - OVERHEAD);
    }
  }

  lemma KeptAllFrom(m: Bytes, r: Bytes, U: Blocks, w: View)
    requires w.mem == r && KeepsPayloads(m, r, U)
    ensures OthersKept(ViewOf(m, U), w, {})
  {
    OthersFrom(m, r, U, w, {});
  }

  lemma KeptButFrom(m: Bytes, r: Bytes, U: Blocks, p: int, w: View)
    requires w.mem == r && KeepsPayloads(m, r, U - {p - 4})
    ensures OthersKept(ViewOf(m, U), w, {p})
  {
    forall a | a in U && a + 4 !in {p} ensures SameBytes(m, r, a + 4, U[a].size - OVERHEAD) {
      assert a in U - {p - 4};
    }
    OthersFrom(m, r, U, w, {p});
  }

  lemma AllocatedFrom(m: Bytes, r: Bytes, U: Blocks, U': Blocks, size: int, p: int)
    requires KeepsPayloads(m, r, U)
    requires p == 0 ==> U' == U
    requires p != 0 ==> p - 4 !in U && p - 4 in U' && U' == U[p - 4 := U'[p - 4]] && U'[p - 4].size - OVERHEAD >= size
    ensures Allocated(ViewOf(m, U), size, p, ViewOf(r, U'))
  {
    hide LiveOf, KeepsPayloads, OthersKept;
    KeptAllFrom(m, r, U, ViewOf(r, U'));
    if p != 0 {
      LiveAdd(U, p - 4, U'[p - 4]);
      LiveAt(U, p);
    }
  }

  lemma ReleasedFrom(m: Bytes, r: Bytes, U: Blocks, p: int)
    requires KeepsPayloads(m, r, U - {p - 4})
    ensures Released(ViewOf(m, U), p, ViewOf(r, U - {p - 4}))
  {
    KeptButFrom(m, r, U, p, ViewOf(r, U - {p - 4}));
    LiveDrop(U, p - 4);
  }

  lemma CopiedLess(m: Bytes, r: Bytes, p: int, q: int, n: int, k: int)
    requires Copied(m, r, p, q, n) && k <= n
    ensures Copied(m, r, p, q, k)
  {
  }

  lemma ResizedFrom(m: Bytes, r: Bytes, U: Blocks, U': Blocks, p: int, size: int, q: int, n: int)
    requires p - 4 in U && size >= 0
    requires q == 0 ==> U' == U && KeepsPayloads(m, r, U)
    requires q != 0 ==>
               && KeepsPayloads(m, r, U - {p - 4})
               && (q == p || q - 4 !in U)
               && q - 4 in U' && U' == (U - {p - 4})[q - 4 := U'[q - 4]] && U'[q - 4].size - OVERHEAD >= size
               && Copied(m, r, p, q, n) && (n >= U[p - 4].size - OVERHEAD || n >= size)
    ensures p in ViewOf(m, U).live && Resized(ViewOf(m, U), p, size, q, ViewOf(r, U'))
  {
    hide LiveOf, KeepsPayloads, OthersKept, Copied;
    LiveAt(U, p);
    if q == 0 {
      KeptAllFrom(m, r, U, ViewOf(r, U'));
    } else {
      KeptButFrom(m, r, U, p, ViewOf(r, U'));
      CopiedLess(m, r, p, q, n, if U[p - 4].size - OVERHEAD < size then U[p - 4].size - OVERHEAD else size);
      LiveDrop(U, p - 4);
      LiveAdd(U - {p - 4}, q - 4, U'[q - 4]);
      LiveAt(U, q);
    }
  }

  /** The blocks in use of a tiled heap make a valid view. */
  lemma TilesView(m: Bytes, base: int, hi: int, L: Blocks)
    requires Tiles(L, base + FIRST_PAD, hi) && hi <= base + ARENA_SIZE == |m| && ArenaAt(base)
    ensures ViewOf(m, Used(L)).Valid()
  {
    TilesFit(L, m, base, hi);
    assert Packed(Used(L)) && Fits(Used(L), |m|);
    hide Tiles, Packed, Fits, Used;
    ViewValid(m, Used(L));
  }

  /** A live pointer belongs to a block in use, inside the arena. */
  lemma TilesLive(base: int, hi: int, L: Blocks, p: int)
    requires Tiles(L, base + FIRST_PAD, hi) && hi <= base + ARENA_SIZE && ArenaAt(base) && p - 4 in Used(L)
    ensures p - 4 in L && Used(L)[p - 4] == L[p - 4]
    ensures base <= p - 4 && p <= base + ARENA_SIZE && p != 0
  {
    hide Tiles;
    UsedAt(L, p - 4);
    BlockInside(L, base + FIRST_PAD, hi, p - 4);
  }
}
