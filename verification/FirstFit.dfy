/** The first-fit allocator of src/allocator.c on raw bytes. */
module FirstFit {
  import opened Memory
  import opened Layout
  import opened Format
  import opened FreeLists
  import opened Arenas
  import opened FirstFitHeap
  import opened FirstFitLaws
  import Client = ClientStore
  import opened Bridge

  /** The abstract heap's answer to a call. */
  ghost function Served(h: Heap, c: Client.Call): (Heap, int)
  {
    match c
    case Malloc(size) => if 0 <= size < SIZE_LIMIT then FirstFitHeap.Malloc(h, size) else (h, 0)
    case Calloc(nmemb, size) => if 0 < nmemb * size < SIZE_LIMIT then FirstFitHeap.Malloc(h, nmemb * size) else (h, 0)
    case Realloc(p, size) =>
      if 0 <= size < SIZE_LIMIT && (p == 0 || p - 4 in h.blocks) then FirstFitHeap.Realloc(h, p, size) else (h, 0)
    case Free(p) => (FirstFitHeap.Free(h, p), 0)
    case Write(_, _, _) => (h, 0)
  }

  class Allocator {
    const arena: Arena

    ghost function State(): Heap
      requires |arena.lists| == 1
      reads this, arena
    {
      Heap(arena.base, arena.blocks, arena.lists[0], arena.arenaCur)
    }

    /** Memory, statics and counters all agree with a valid abstract heap. */
    ghost predicate Valid()
      reads this, arena, arena.mem
    {
      && |arena.lists| == 1
      && arena.Sound() && arena.Statics()
      && State().Valid()
      && arena.freelistLen == |arena.lists[0]|
    }

    constructor (base: int)
      requires ArenaAt(base)
      ensures Valid() && State() == Empty(base)
      ensures fresh(arena) && fresh(arena.mem)
    {
      arena := new Arena(base, 1);
    }

    /** my_malloc. */
    method Malloc(size: int) returns (p: int)
      requires Valid() && Sane(State().Top(), size)
      modifies arena, arena.mem
      ensures Valid() && (State(), p) == FirstFitHeap.Malloc(old(State()), size)
      ensures KeepsPayloads(old(arena.mem[..]), arena.mem[..], Used(old(arena.blocks)))
    {
      hide Heap.Valid, Tiles, KeepsPayloads, Within, Used, Wired, RemoveAt, FirstFitHeap.Malloc;
      var need := Need(size);
      ghost var h, keep := State(), Used(arena.blocks);
      MallocSteps(h);
      var link, node, chunk, steps, k := arena.FindFit(0, need);
      MallocIsFirstFit(h, size, k);
      if node == 0 {
        p := arena.Carve(need);
        KeepsWithin(old(arena.mem[..]), arena.mem[..], keep, h.blocks);
      } else {
        if chunk >= need + MIN_BLOCK {
          arena.TakeSplit(link, node, chunk, need, 0, 0, k, keep);
          assert arena.lists[0] == Unlisted(h.blocks, h.free, k, need);
        } else {
          arena.TakeWhole(link, node, chunk, 0, k, keep);
          assert arena.blocks == Placed(h.blocks, node, need);
        }
        p := node + 4;
      }
    }

    /** my_malloc at the sizes where its steps do not make sense: what comes back, what the
        header word below it says, where the break is then, and every byte stored. */
    method MallocWrapped(size: int) returns (p: int, outside: bool)
      requires Valid() && 0 <= size < SIZE_LIMIT && !Sane(State().Top(), size)
      modifies arena`arenaBase, arena`arenaCur, arena`arenaEnd, arena`heapLo, arena`heapHi
      modifies arena`heads, arena`freelistLen, arena.mem
      ensures var o := MallocOutcome(old(State()), size);
              && p == o.p && arena.arenaCur == o.cur && 4 <= p <= arena.mem.Length
              && TagSize(Load(arena.mem[..], p - 4, WORD_TAG)) == o.room + OVERHEAD
      ensures var h := old(State());
              var head := At(h.free, 0);
              && (head != 0 ==> InBounds(old(arena.mem[..]), head + 4, WORD_LINK))
              && var chunk, link := SizeOf(h.blocks, head), LinkOf(old(arena.mem[..]), head);
                 && arena.mem[..] == WrappedBytes(old(arena.mem[..]), h.base, h.cur, head, chunk, Need(size), link)
                 && (head != 0 && TakesHead(Need(size)) ==> arena.heads == [(head + Need(size)) % SIZE_LIMIT])
                 && (head == 0 || !TakesHead(Need(size)) ==> arena.heads == old(arena.heads))
                 && outside == Strays(h.base, h.cur, head, Need(size))
      ensures arena.freelistLen == old(arena.freelistLen)
    {
      hide Heap.Valid, Wired, Tiles, Load, WrappedBytes, Wrapped, Need, Strays;
      ghost var h, m := State(), arena.mem[..];
      ghost var head := At(h.free, 0);
      MallocSteps(h);
      InsaneWraps(h.base, h.cur, size);
      HeadInside(m, h.base, h.cur, h.blocks, arena.heads, arena.lists, 0);
      WrappedHeader(m, h.base, h.cur, head, SizeOf(h.blocks, head), Need(size), LinkOf(m, head));
      p, outside := arena.MallocWrapped(0, Need(size), _ => 0);
    }

    /** Everything but the free list being complete: the state inside an operation. */
    ghost predicate Settled()
      reads this, arena, arena.mem
    {
      && |arena.lists| == 1
      && arena.Sound() && arena.Statics()
      && arena.freelistLen == |arena.lists[0]|
    }

    /** freelist_remove; a block that is not on the list is ignored. */
    method FreelistRemove(header: int, ghost keep: Blocks)
      requires Settled()
      requires Within(keep, arena.blocks) && (forall i :: 0 <= i < |arena.lists[0]| ==> arena.lists[0][i] !in keep)
      modifies arena`heads, arena`lists, arena`freelistLen, arena.mem
      ensures Settled()
      ensures arena.lists[0] == Without(old(arena.lists[0]), header)
      ensures KeepsPayloads(old(arena.mem[..]), arena.mem[..], keep)
    {
      hide Wired, KeepsPayloads, Within, RemoveAt;
      ghost var free := arena.lists[0];
      KeepsAll(arena.mem[..], keep);
      var link, node, steps, k := arena.FindNode(0, header);
      if node != 0 {
        WithoutAt(free, k);
        arena.Unlink(link, node, 0, k, keep);
      } else {
        WithoutAbsent(free, header);
      }
    }

    /** First half of my_free: clear the header flag, absorb a free right neighbour. */
    method AbsorbRight(header: int, ghost keep: Blocks)
      requires Valid() && header in arena.blocks && arena.blocks[header].used
      requires keep == Used(arena.blocks) - {header}
      modifies arena`heads, arena`lists, arena`freelistLen, arena`blocks, arena.mem
      ensures Settled() && State() == MergeRight(old(State()), header)
      ensures KeepsPayloads(old(arena.mem[..]), arena.mem[..], keep)
    {
      hide Heap.Valid, Wired, KeepsPayloads, Within, Tiles, Ready, Without, Format.SetTags, Used;
      ghost var h, m := State(), arena.mem[..];
      FreeSteps(h, m, header, keep);
      var size, used := arena.HeaderTag(header);
      arena.ClearUsed(header, keep);
      var right := header + size;
      if right < arena.heapHi {
        var rightSize, rightUsed := arena.HeaderTag(right);
        if !rightUsed {
          ghost var m1 := arena.mem[..];
          FreelistRemove(right, keep);
          ghost var m2 := arena.mem[..];
          KeepsTrans(m, m1, m2, keep);
          DropWired(m2, arena.base, arena.blocks, arena.heads, arena.lists, right);
          arena.blocks := arena.blocks - {right};
          ghost var whole := Block(size + rightSize, false, false);
          assert arena.blocks[header := whole] == (h.blocks - {right})[header := whole];
          arena.SetTags(header, size + rightSize, size + rightSize, false, keep);
          KeepsTrans(m, m2, arena.mem[..], keep);
        }
      }
    }

    /** Second half of my_free: fold into a free left neighbour, or list the block.
        Either way the word at `header` keeps its cleared flag. */
    method JoinLeft(header: int, ghost keep: Blocks)
      requires Settled() && Pending(State(), header) && keep == Used(arena.blocks)
      modifies arena`heads, arena`lists, arena`freelistLen, arena`blocks, arena.mem
      ensures Valid() && State() == MergeLeft(old(State()), header)
      ensures KeepsPayloads(old(arena.mem[..]), arena.mem[..], keep)
      ensures SameBytes(old(arena.mem[..]), arena.mem[..], header, 4)
    {
      hide Heap.Valid, Pending, Wired, KeepsPayloads, Within, Tiles, Ready, Without, Used, Listed;
      ghost var h, m := State(), arena.mem[..];
      ghost var left := LeftIs(h, header);
      MergeLeftValid(h, header);
      if header - 4 > arena.heapLo {
        var leftSize, leftUsed := arena.LeftFooterTag(header, left);
        if !leftUsed {
          FoldLeft(header, header - 4 - leftSize + 4, keep);
          return;
        }
      }
      ListSteps(h, header, keep);
      arena.Push(header, 0, keep);
    }

    method FoldLeft(header: int, left: int, ghost keep: Blocks)
      requires Settled() && Pending(State(), header) && keep == Used(arena.blocks)
      requires left != 0 && left == LeftFree(arena.blocks, header)
      modifies arena`heads, arena`lists, arena`freelistLen, arena`blocks, arena.mem
      ensures Settled() && State() == MergeLeft(old(State()), header)
      ensures KeepsPayloads(old(arena.mem[..]), arena.mem[..], keep)
      ensures SameBytes(old(arena.mem[..]), arena.mem[..], header, 4)
    {
      hide Pending, Wired, KeepsPayloads, Within, Tiles, Ready, Without, Used, Listed;
      hide Format.SetTags, Store, SameBytes;
      ghost var h, m := State(), arena.mem[..];
      FoldSteps(h, m, header, left, keep);
      FreelistRemove(left, keep);
      ghost var m1 := arena.mem[..];
      var size, used := arena.HeaderTag(header);
      var leftSize, leftUsed := arena.HeaderTag(left);
      WordKept(m, m1, arena.base, h.blocks, old(arena.heads), old(arena.lists), arena.heads, arena.lists, header);
      DropWired(m1, arena.base, arena.blocks, arena.heads, arena.lists, header);
      arena.blocks := arena.blocks - {header};
      arena.SetTags(left, size + leftSize, size + leftSize, false, keep);
      ghost var m2 := arena.mem[..];
      KeepsTrans(m, m1, m2, keep);
      ghost var next := arena.heads[0];
      arena.Push(left, 0, keep);
      KeepsTrans(m, m2, arena.mem[..], keep);
      InnerWordKept(m, m1, header, left, size + leftSize, next);
    }

    /** p is null, or the word below it can be read and, if it is flagged used, is
        the header of a block: all that free looks at. */
    ghost predicate Freeable(p: int)
      reads arena, arena.mem
    {
      p == 0 ||
      (0 <= arena.base <= p - 4 && p <= arena.mem.Length &&
       (TagFlag(Load(arena.mem[..], p - 4, WORD_TAG)) ==> p - 4 in arena.blocks))
    }

    /** my_free. Whatever path is taken, the word below p ends up not flagged used;
        and when it was not flagged to begin with nothing at all changes. */
    method Free(p: int)
      requires Valid() && Freeable(p)
      modifies arena`heads, arena`lists, arena`freelistLen, arena`blocks, arena.mem
      ensures Valid() && State() == FirstFitHeap.Free(old(State()), p)
      ensures KeepsPayloads(old(arena.mem[..]), arena.mem[..], Used(old(arena.blocks)) - {p - 4})
      ensures p != 0 ==> p >= 4 && p <= arena.mem.Length && !TagFlag(Load(arena.mem[..], p - 4, WORD_TAG))
      ensures p == 0 || !TagFlag(old(Load(arena.mem[..], p - 4, WORD_TAG))) ==> unchanged(arena) && unchanged(arena.mem)
    {
      hide Heap.Valid, Wired, KeepsPayloads, Used, MergeLeft, MergeRight, Pending, SameBytes, Load;
      ghost var h, m, keep := State(), arena.mem[..], Used(arena.blocks) - {p - 4};
      KeepsAll(m, keep);
      if p == 0 { return; }
      var header := p - 4;
      var tag := LoadWord(arena.mem, header, WORD_TAG);
      if !TagFlag(tag) {
        FlagMatches(m, arena.base, arena.blocks, arena.heads, arena.lists, header);
        return;
      }
      FlagMatches(m, arena.base, arena.blocks, arena.heads, arena.lists, header);
      MergeRightPending(h, header);
      MergeRightUsed(h, header);
      AbsorbRight(header, keep);
      ghost var m1 := arena.mem[..];
      FlagMatches(m1, arena.base, arena.blocks, arena.heads, arena.lists, header);
      JoinLeft(header, keep);
      KeepsTrans(m, m1, arena.mem[..], keep);
      LoadSame(m1, arena.mem[..], header, WORD_TAG);
    }

    /** A double free with nothing in between: the second call changes nothing,
        whichever way the first one merged. */
    method FreeTwice(p: int)
      requires Valid() && Freeable(p)
      modifies arena`heads, arena`lists, arena`freelistLen, arena`blocks, arena.mem
      ensures Valid() && State() == FirstFitHeap.Free(old(State()), p)
      ensures KeepsPayloads(old(arena.mem[..]), arena.mem[..], Used(old(arena.blocks)) - {p - 4})
    {
      hide Heap.Valid, Wired, Load, FirstFitHeap.Free, KeepsPayloads, Used;
      Free(p);
      ghost var h, m := State(), arena.mem[..];
      label once:
      Free(p);
      assert unchanged@once(arena) && unchanged@once(arena.mem);
      assert State() == h && arena.mem[..] == m;
    }

    /** A client store into a live payload. */
    method Write(p: int, i: int, v: byte)
      requires Valid() && p - 4 in Used(arena.blocks) && 0 <= i < arena.blocks[p - 4].size - OVERHEAD
      modifies arena.mem
      ensures Valid() && State() == old(State())
      ensures 0 <= p + i < arena.mem.Length && arena.mem[..] == old(arena.mem[..])[p + i := v]
      ensures KeepsPayloads(old(arena.mem[..]), arena.mem[..], Used(old(arena.blocks)) - {p - 4})
    {
      hide Heap.Valid, Wired, KeepsPayloads, Within, Used, Listless;
      LiveSteps(State(), p - 4);
      UsedAt(arena.blocks, p - 4);
      assert arena.lists == [State().free];
      arena.WriteByte(p - 4, i, v, Used(arena.blocks) - {p - 4});
    }

    /** my_calloc: null for an empty or overflowing product, otherwise malloc and zero. */
    method Calloc(nmemb: int, size: int) returns (p: int)
      requires Valid() && 0 <= nmemb < SIZE_LIMIT && 0 <= size < SIZE_LIMIT
      requires 0 < nmemb * size < SIZE_LIMIT ==> Requestable(State().Top(), nmemb * size)
      modifies arena, arena.mem
      ensures Valid()
      ensures !(0 < nmemb * size < SIZE_LIMIT) ==>
                p == 0 && State() == old(State()) && arena.mem[..] == old(arena.mem[..])
      ensures 0 < nmemb * size < SIZE_LIMIT ==> (State(), p) == FirstFitHeap.Malloc(old(State()), nmemb * size)
      ensures p != 0 ==> 0 < p && p + nmemb * size <= arena.mem.Length
      ensures p != 0 ==> forall i :: p <= i < p + nmemb * size ==> arena.mem[i] == 0
      ensures KeepsPayloads(old(arena.mem[..]), arena.mem[..], Used(old(arena.blocks)))
    {
      hide Heap.Valid, Wired, KeepsPayloads, Within, Used, FirstFitHeap.Malloc;
      ghost var h, m, keep := State(), arena.mem[..], Used(arena.blocks);
      KeepsAll(m, keep);
      p := 0;
      if nmemb == 0 || size == 0 { return; }
      OverflowTest(nmemb, size);
      if nmemb > (SIZE_LIMIT - 1) / size { return; }
      var total := nmemb * size;
      p := Malloc(total);
      if p != 0 {
        ghost var m1 := arena.mem[..];
        CallocSteps(h, State(), p, total);
        assert arena.lists == [State().free];
        arena.ZeroPayload(p - 4, total, keep);
        KeepsTrans(m, m1, arena.mem[..], keep);
      }
    }

    /** The growth's leftover becomes a listed block of its own. */
    method GrowSplit(header: int, newSize: int, rest: int, ghost keep: Blocks)
      requires arena.Sound() && |arena.lists| == 1
      requires header < header + newSize && arena.base <= header && newSize % 16 == 0 && rest % 16 == 0
      requires MIN_BLOCK <= newSize && MIN_BLOCK <= rest && newSize + rest < TAG_LIMIT - 1
      requires header + newSize + rest <= arena.mem.Length
      requires var split, back := header + newSize, Block(rest, false, false);
               && Listless(arena.lists, split)
               && Ready(arena.blocks[split := back], arena.mem.Length, keep)
               && Within(keep, arena.blocks[split := back] - {split})
               && Ready(arena.blocks[header := Block(newSize, true, true)][split := back], arena.mem.Length, keep)
      modifies arena`heads, arena`lists, arena`freelistLen, arena`blocks, arena.mem
      ensures arena.Sound()
      ensures arena.lists == [[header + newSize] + old(arena.lists)[0]]
      ensures arena.freelistLen == old(arena.freelistLen) + 1
      ensures arena.blocks
              == old(arena.blocks)[header := Block(newSize, true, true)][header + newSize := Block(rest, false, false)]
      ensures KeepsPayloads(old(arena.mem[..]), arena.mem[..], keep)
    {
      hide Wired, KeepsPayloads, Within, Ready, Listless, Format.SetTags, Store;
      var split := header + newSize;
      ghost var m, L := arena.mem[..], arena.blocks;
      arena.SetTags(split, rest, rest, false, keep);
      ghost var m1 := arena.mem[..];
      arena.Push(split, 0, keep);
      ghost var m2 := arena.mem[..];
      KeepsTrans(m, m1, m2, keep);
      SplitOrder(L, header, Block(newSize, true, true), split, Block(rest, false, false));
      arena.SetTags(header, newSize + 1, newSize, true, keep);
      KeepsTrans(m, m2, arena.mem[..], keep);
    }

    /** my_realloc's growth over a free right neighbour. */
    method GrowInPlace(header: int, right: int, newSize: int, ghost keep: Blocks)
      requires Valid() && header in arena.blocks && arena.blocks[header].used && keep == Used(arena.blocks)
      requires right == Next(arena.blocks, header) && CanGrow(State(), header, newSize)
      requires newSize > arena.blocks[header].size && newSize % 16 == 0
      modifies arena`heads, arena`lists, arena`freelistLen, arena`blocks, arena.mem
      ensures Valid() && State() == Grow(old(State()), header, right, newSize)
      ensures KeepsPayloads(old(arena.mem[..]), arena.mem[..], keep)
    {
      hide Heap.Valid, Wired, KeepsPayloads, Within, Tiles, Ready, Without, Used, Format.SetTags, Store;
      ghost var h, m := State(), arena.mem[..];
      GrowSteps(h, m, header, right, newSize, keep);
      if Next(h.blocks, right) >= header + newSize + MIN_BLOCK {
        GrowSplitSteps(h, m, header, right, newSize, keep);
      }
      GrowValid(h, header, newSize);
      var size, used := arena.HeaderTag(header);
      var rightSize, rightUsed := arena.HeaderTag(right);
      var combined := size + rightSize;
      FreelistRemove(right, keep);
      ghost var m1 := arena.mem[..];
      DropWired(m1, arena.base, arena.blocks, arena.heads, arena.lists, right);
      arena.blocks := arena.blocks - {right};
      if combined >= newSize + MIN_BLOCK {
        GrowSplit(header, newSize, combined - newSize, keep);
        KeepsTrans(m, m1, arena.mem[..], keep);
      } else {
        arena.SetTags(header, combined + 1, combined, true, keep);
        KeepsTrans(m, m1, arena.mem[..], keep);
      }
    }

    /** my_realloc's shrink: the tail goes on the list without looking at its neighbours. */
    method ShrinkInPlace(header: int, newSize: int, ghost keep: Blocks)
      requires Valid() && header in arena.blocks && arena.blocks[header].used
      requires MIN_BLOCK <= newSize <= arena.blocks[header].size && newSize % 16 == 0
      requires keep == Used(arena.blocks)[header := Block(newSize, true, true)]
      modifies arena`heads, arena`lists, arena`freelistLen, arena`blocks, arena.mem
      ensures Valid() && State() == Shrink(old(State()), header, newSize)
      ensures KeepsPayloads(old(arena.mem[..]), arena.mem[..], keep)
    {
      hide Heap.Valid, Wired, KeepsPayloads, Within, Tiles, Ready, Used, Format.SetTags, Store;
      ghost var h, m := State(), arena.mem[..];
      ShrinkValid(h, header, newSize);
      KeepsAll(m, keep);
      var size, used := arena.HeaderTag(header);
      var leftover := size - newSize;
      if leftover >= MIN_BLOCK {
        ShrinkSteps(h, m, header, newSize, keep);
        arena.SetTags(header, newSize + 1, newSize, true, keep);
        ghost var m1 := arena.mem[..];
        arena.SetTags(header + newSize, leftover, leftover, false, keep);
        ghost var m2 := arena.mem[..];
        KeepsTrans(m, m1, m2, keep);
        arena.Push(header + newSize, 0, keep);
        KeepsTrans(m, m2, arena.mem[..], keep);
      }
    }

    /** my_realloc's last resort: allocate, copy the whole old payload, free. */
    method MoveBlock(p: int, size: int) returns (q: int)
      requires Valid() && p != 0 && p - 4 in Used(arena.blocks)
      requires 0 <= size < SIZE_LIMIT && arena.blocks[p - 4].size < NewSize(size)
      modifies arena, arena.mem
      ensures Valid() && (State(), q) == Move(old(State()), p, NewSize(size))
      ensures KeepsPayloads(old(arena.mem[..]), arena.mem[..],
                            if q == 0 then Used(old(arena.blocks)) else Used(old(arena.blocks)) - {p - 4})
      ensures q != 0 ==> Copied(old(arena.mem[..]), arena.mem[..], p, q, old(arena.blocks)[p - 4].size - OVERHEAD)
    {
      hide Heap.Valid, Wired, KeepsPayloads, Within, FirstFitHeap.Malloc, FirstFitHeap.Free, Copied, Load;
      ghost var h, m, keep := State(), arena.mem[..], Used(arena.blocks);
      MoveSteps(h, p, size);
      var oldSize, used := arena.HeaderTag(p - 4);
      q := Malloc(NewSize(size));
      if q == 0 { return; }
      ghost var g, m1 := State(), arena.mem[..];
      assert arena.lists == [g.free];
      arena.CopyPayload(q - 4, p - 4, oldSize - OVERHEAD, keep);
      ghost var m2 := arena.mem[..];
      KeepsTrans(m, m1, m2, keep);
      Free(p);
      MoveKeeps(h.blocks, g.blocks, p, q, oldSize - OVERHEAD, m, m1, m2, arena.mem[..]);
    }

    /** my_realloc of a live pointer. */
    method Realloc(p: int, size: int) returns (q: int)
      requires Valid() && 0 <= size < SIZE_LIMIT
      requires p == 0 ==> Sane(State().Top(), size)
      requires p != 0 ==> p - 4 in Used(arena.blocks) && (size == 0 || NewSize(size) >= MIN_BLOCK)
      modifies arena, arena.mem
      ensures Valid() && (State(), q) == FirstFitHeap.Realloc(old(State()), p, size)
      ensures KeepsPayloads(old(arena.mem[..]), arena.mem[..],
                            if p == 0 || (q == 0 && size != 0) then Used(old(arena.blocks))
                            else Used(old(arena.blocks)) - {p - 4})
      ensures p != 0 && q != 0 ==>
                Copied(old(arena.mem[..]), arena.mem[..], p, q,
                  Lesser(old(arena.blocks)[p - 4].size, NewSize(size)) - OVERHEAD)
      ensures p != 0 && size != 0 ==> (q == p <==> HasRoom(old(arena.blocks), p - 4, NewSize(size)))
    {
      hide Heap.Valid, Wired, KeepsPayloads, FirstFitHeap.Malloc, FirstFitHeap.Free, Move, Grow, Shrink, NewSize, Load,
        HasRoom;
      if p == 0 {
        q := Malloc(size);
        return;
      }
      if size == 0 {
        WiredBounds(arena.mem[..], arena.base, arena.blocks, arena.heads, arena.lists, p - 4);
        Free(p);
        return 0;
      }
      ghost var h, m, keep := State(), arena.mem[..], Used(arena.blocks);
      RightIs(h, p - 4);
      ReallocStays(h, p, size);
      var oldSize, used := arena.HeaderTag(p - 4);
      var newSize := NewSize(size);
      if newSize > oldSize {
        var right := p - 4 + oldSize;
        var fits := false;
        if right < arena.heapHi {
          var rightSize, rightUsed := arena.HeaderTag(right);
          fits := !rightUsed && oldSize + rightSize >= newSize;
        }
        if fits {
          GrowInPlace(p - 4, right, newSize, keep);
          StaysPut(m, arena.mem[..], keep, keep, p);
          q := p;
        } else {
          q := MoveBlock(p, size);
        }
      } else {
        ghost var kept := keep[p - 4 := Block(newSize, true, true)];
        ShrinkInPlace(p - 4, newSize, kept);
        StaysPut(m, arena.mem[..], keep, kept, p);
        q := p;
      }
    }

    /** my_realloc of a live pointer when the 32-bit mask leaves no size at all. The
        block is tagged free and listed, yet its pointer is returned; and the word
        below it, the left neighbour's footer if there is one, now says size 0. */
    method ReallocMaskedOut(p: int, size: int) returns (q: int)
      requires Valid() && p - 4 in Used(arena.blocks)
      requires 0 < size < SIZE_LIMIT && NewSize(size) == 0
      modifies arena`heads, arena`freelistLen, arena.mem
      ensures q == p && 8 <= p <= arena.mem.Length
      ensures arena.heads == [p - 4] && arena.freelistLen == old(arena.freelistLen) + 1
      ensures !TagFlag(Load(arena.mem[..], p - 4, WORD_TAG))
      ensures Load(arena.mem[..], p - 8, WORD_TAG) == 1
    {
      hide Heap.Valid, Wired, Used, Load, Store;
      var header := p - 4;
      MaskedOutSteps(State(), header);
      WiredBounds(arena.mem[..], arena.base, arena.blocks, arena.heads, arena.lists, header);
      HeadBound(arena.mem[..], arena.base, arena.blocks, arena.heads, arena.lists);
      var oldSize, used := arena.HeaderTag(header);
      StoreWord(arena.mem, header, WORD_TAG, 1);
      StoreWord(arena.mem, header - 4, WORD_TAG, 1);
      ghost var m2 := arena.mem[..];
      StoreWord(arena.mem, header, WORD_TAG, oldSize);
      ghost var m3 := arena.mem[..];
      StoreWord(arena.mem, header + oldSize - 4, WORD_TAG, oldSize);
      ghost var m4 := arena.mem[..];
      StoreWord(arena.mem, header + 4, WORD_LINK, arena.heads[0]);
      arena.heads := [header];
      arena.freelistLen := arena.freelistLen + 1;
      q := p;
      CapacityTag();
      LoadStored(m2, header, WORD_TAG, oldSize);
      LoadSame(m3, m4, header, WORD_TAG);
      LoadSame(m4, arena.mem[..], header, WORD_TAG);
      assert Load(m2, header - 4, WORD_TAG) == 1 by {
        LoadStored(Store(old(arena.mem[..]), header, WORD_TAG, 1), header - 4, WORD_TAG, 1);
      }
      LoadSame(m2, m3, header - 4, WORD_TAG);
      LoadSame(m3, m4, header - 4, WORD_TAG);
      LoadSame(m4, arena.mem[..], header - 4, WORD_TAG);
    }

    // --- the client's view -------------------------------------------------------

    /** What the client sees: memory and the payloads of the blocks in use. */
    ghost function View(): Client.View
      reads this, arena, arena.mem
    {
      ViewOf(arena.mem[..], Used(arena.blocks))
    }

    /** Calls whose size arithmetic stays in range: below 2^64 for malloc and
        calloc, below 2^32 for realloc. */
    ghost predicate InRange(c: Client.Call)
      requires |arena.lists| == 1
      reads this, arena
    {
      match c
      case Malloc(size) => Requestable(State().Top(), size)
      case Calloc(nmemb, size) =>
        && 0 <= nmemb < SIZE_LIMIT && 0 <= size < SIZE_LIMIT
        && (0 < nmemb * size < SIZE_LIMIT ==> Requestable(State().Top(), nmemb * size))
      case Realloc(p, size) => if p == 0 then Requestable(State().Top(), size) else 0 <= size && size + 23 < TAG_LIMIT
      case Free(_) => true
      case Write(_, _, _) => true
    }

    method PerformMalloc(size: int) returns (r: int)
      requires Valid() && InRange(Client.Malloc(size))
      modifies arena, arena.mem
      ensures Valid() && (State(), r) == Served(old(State()), Client.Malloc(size))
      ensures Client.Contract(old(View()), Client.Malloc(size), r, View())
    {
      hide Heap.Valid, Wired, KeepsPayloads, Used, Client.View.Valid, LiveOf, FirstFitHeap.Malloc, Need;
      ghost var h, m := State(), arena.mem[..];
      r := Malloc(size);
      MallocView(h, State(), m, arena.mem[..], size, r);
    }

    method PerformCalloc(nmemb: int, size: int) returns (r: int)
      requires Valid() && InRange(Client.Calloc(nmemb, size))
      modifies arena, arena.mem
      ensures Valid() && (State(), r) == Served(old(State()), Client.Calloc(nmemb, size))
      ensures Client.Contract(old(View()), Client.Calloc(nmemb, size), r, View())
    {
      hide Heap.Valid, Wired, KeepsPayloads, Used, Client.View.Valid, LiveOf, FirstFitHeap.Malloc, Need;
      ghost var h, m := State(), arena.mem[..];
      r := Calloc(nmemb, size);
      if 0 < nmemb * size < SIZE_LIMIT {
        MallocView(h, State(), m, arena.mem[..], nmemb * size, r);
      } else {
        StateView(h, m);
        AllocatedFrom(m, m, Used(h.blocks), Used(h.blocks), nmemb * size, 0);
      }
    }

    method PerformRealloc(p: int, size: int) returns (r: int)
      requires Valid() && Client.Permitted(View(), Client.Realloc(p, size)) && InRange(Client.Realloc(p, size))
      modifies arena, arena.mem
      ensures Valid() && (State(), r) == Served(old(State()), Client.Realloc(p, size))
      ensures Client.Contract(old(View()), Client.Realloc(p, size), r, View())
    {
      hide Heap.Valid, Wired, KeepsPayloads, Used, Client.View.Valid, LiveOf, FirstFitHeap.Realloc, NewSize, Copied,
        FirstFitHeap.Malloc, FirstFitHeap.Free, Need;
      ghost var h, m := State(), arena.mem[..];
      if p != 0 {
        LiveAt(Used(h.blocks), p);
        LiveBounds(h, m, p);
        NewSizeExact(size);
      }
      r := Realloc(p, size);
      ReallocIs(h, p, size);
      if p == 0 {
        MallocView(h, State(), m, arena.mem[..], size, r);
      } else if size == 0 {
        FreeView(h, State(), m, arena.mem[..], p);
      } else {
        ReallocView(h, State(), m, arena.mem[..], p, size, r);
      }
    }

    method PerformFree(p: int)
      requires Valid() && Client.Permitted(View(), Client.Free(p))
      modifies arena, arena.mem
      ensures Valid() && (State(), 0) == Served(old(State()), Client.Free(p))
      ensures Client.Contract(old(View()), Client.Free(p), 0, View())
    {
      hide Heap.Valid, Wired, KeepsPayloads, Used, Client.View.Valid, LiveOf, FirstFitHeap.Free, Load;
      ghost var h, m := State(), arena.mem[..];
      if p != 0 {
        LiveAt(Used(h.blocks), p);
        LiveBounds(h, m, p);
      }
      Free(p);
      FreeView(h, State(), m, arena.mem[..], p);
    }

    method PerformWrite(p: int, i: int, v: byte)
      requires Valid() && Client.Permitted(View(), Client.Write(p, i, v))
      modifies arena, arena.mem
      ensures Valid() && (State(), 0) == Served(old(State()), Client.Write(p, i, v))
      ensures Client.Contract(old(View()), Client.Write(p, i, v), 0, View())
    {
      hide Heap.Valid, Wired, KeepsPayloads, Used, Client.View.Valid, LiveOf;
      LiveAt(Used(arena.blocks), p);
      LiveBounds(State(), arena.mem[..], p);
      Write(p, i, v);
      StateView(State(), arena.mem[..]);
    }

    /** Every operation is the step of the abstract heap and honours the client contract. */
    method Perform(c: Client.Call) returns (r: int)
      requires Valid() && Client.Permitted(View(), c) && InRange(c)
      modifies arena, arena.mem
      ensures Valid() && (State(), r) == Served(old(State()), c)
      ensures Client.Contract(old(View()), c, r, View())
    {
      hide Served, Heap.Valid, Wired, Used, LiveOf, Client.View.Valid, Client.Resized, Client.Allocated,
        Client.Released;
      match c
      case Malloc(size) => r := PerformMalloc(size);
      case Calloc(nmemb, size) => r := PerformCalloc(nmemb, size);
      case Realloc(p, size) => r := PerformRealloc(p, size);
      case Free(p) =>
        PerformFree(p);
        r := 0;
      case Write(p, i, v) =>
        PerformWrite(p, i, v);
        r := 0;
    }

    /** check_invariant. On every valid heap it passes, unless there are more free
        blocks than its collection array holds, or a first malloc has failed before
        any block was carved and the walk starts from a null pointer. */
    method CheckInvariant() returns (verdict: Verdict)
      requires Valid()
      ensures verdict == if arena.arenaCur == arena.base then NullRead
                         else if |arena.lists[0]| <= MAX_NODES then Passed
                         else Failed
    {
      hide Heap.Valid, Wired, FreeStarts, UsedBytes, Tiles;
      ghost var free := arena.lists[0];
      BreakCases(State());
      if arena.heapLo == 0 && arena.heapLo < arena.heapHi {
        return NullRead;
      }
      AllFree(State());
      var ok, linear, usedBytes := arena.LinearPass();
      if !ok {
        return Failed;
      }
      var count := 0;
      var node := arena.Follow(0, 0, 0);
      FreeNodes(State());
      while ok && node != 0
        invariant ok && 0 <= count <= |free|
        invariant node == At(free, count) && (node == 0 <==> count == |free|) && (node != 0 ==> node in arena.blocks)
        decreases |free| - count
      {
        var size, used := arena.HeaderTag(node);
        var found := Search(linear, node);
        ok := !used && arena.heapLo <= node <= arena.heapHi && count < MAX_NODES && found;
        node := arena.Follow(node + 4, 0, count + 1);
        count := count + 1;
      }
      verdict := if ok && |linear| == count && count == arena.freelistLen then Passed else Failed;
    }
  }

  /** check_invariant after a first malloc that failed. */
  method CheckAfterFailure(base: int) returns (verdict: Verdict)
    requires ArenaAt(base)
    ensures verdict == NullRead
  {
    hide Heap.Valid, Wired, FirstFitHeap.Malloc;
    var a := new Allocator(base);
    FailedFirst(base);
    var p := a.Malloc(TAG_LIMIT);
    verdict := a.CheckInvariant();
  }

  lemma {:induction false} WithoutAbsent(free: seq<int>, x: int)
    requires forall j :: 0 <= j < |free| ==> free[j] != x
    ensures Without(free, x) == free
  {
    if free != [] {
      WithoutAbsent(free[1..], x);
    }
  }


  lemma MallocSteps(h: Heap)
    requires h.Valid()
    ensures ArenaAt(h.base) && BreakAt(h.base, h.cur) && Tiles(h.blocks, h.base + FIRST_PAD, Layout.Top(h.base, h.cur))
    ensures Within(Used(h.blocks), h.blocks)
    ensures forall k :: 0 <= k < |h.free| ==> h.free[k] in h.blocks && h.free[k] !in Used(h.blocks)
  {
  }

  lemma FreeSteps(h: Heap, m: Bytes, a: int, keep: Blocks)
    requires h.Valid() && |m| == h.base + ARENA_SIZE && a in h.blocks && h.blocks[a].used
    requires keep == Used(h.blocks) - {a}
    ensures h.Lo() <= a
    ensures Within(keep, h.blocks) && Within(keep, h.blocks[a := h.blocks[a].(used := false)])
    ensures forall k :: 0 <= k < |h.free| ==> h.free[k] !in keep
    ensures var r := Next(h.blocks, a);
            && (r < h.cur <==> r in h.blocks) && r > a
            && (r in h.blocks && !h.blocks[r].used ==>
                  var whole := Block(h.blocks[a].size + h.blocks[r].size, false, false);
                  && r !in Without(h.free, r)
                  && MIN_BLOCK <= whole.size < TAG_LIMIT - 1 && whole.size % 16 == 0 && a + whole.size <= |m|
                  && Ready((h.blocks - {r})[a := whole], |m|, keep))
  {
    hide Tiles, Listed, Used, Within, Ready;
    var L, r := h.blocks, Next(h.blocks, a);
    BlockInside(L, h.Lo(), h.Top(), a);
    RightIs(h, a);
    ListedUnused(L, h.free);
    UsedFrees(L, a);
    if r in L && !L[r].used {
      var whole := Block(L[a].size + L[r].size, false, false);
      BlockInside(L, h.Lo(), h.Top(), r);
      SumOf16(L[a].size, L[r].size);
      MergeTiles(L, h.Lo(), h.Top(), a, r, whole);
      KeptMerge(L, a, r, whole);
      TilesReady((L - {r})[a := whole], m, h.base, h.Top(), keep);
      WithoutListed(L, h.free, r);
      NotListed(L - {r}, Without(h.free, r), r);
    }
  }

  lemma UsedFrees(L: Blocks, a: int)
    requires a in L
    ensures Within(Used(L) - {a}, L) && Within(Used(L) - {a}, L[a := L[a].(used := false)])
  {
  }

  lemma KeptMerge(L: Blocks, a: int, r: int, whole: Block)
    requires a in L && r in L && !L[r].used
    ensures Within(Used(L) - {a}, (L - {r})[a := whole])
  {
  }

  /** The block on the left of a, and whether free would absorb it. */
  lemma LeftIs(h: Heap, a: int) returns (l: int)
    requires Pending(h, a)
    ensures h.Lo() <= a < h.Top() && h.cur > h.base && Aligned(a)
    ensures a > h.Lo() ==>
              l in h.blocks && l > 0 && Next(h.blocks, l) == a
              && LeftFree(h.blocks, a) == if h.blocks[l].foot then 0 else l
    ensures a == h.Lo() ==> LeftFree(h.blocks, a) == 0
  {
    l := 0;
    if a > h.Lo() {
      l := LeftNeighbour(h.blocks, h.Lo(), h.Top(), h.Lo(), a);
      var f := LeftFree(h.blocks, a);
      if f != 0 {
        NextInjective(h.blocks, f, l);
      } else {
        assert !FreeOnLeft(h.blocks, l, a);
      }
    }
  }

  lemma ListSteps(h: Heap, a: int, keep: Blocks)
    requires Pending(h, a) && keep == Used(h.blocks)
    ensures a in h.blocks && a !in h.free && Within(keep, h.blocks - {a})
  {
  }

  lemma FoldSteps(h: Heap, m: Bytes, a: int, l: int, keep: Blocks)
    requires Pending(h, a) && keep == Used(h.blocks) && |m| == h.base + ARENA_SIZE
    requires l != 0 && l == LeftFree(h.blocks, a)
    ensures a in h.blocks && l in h.blocks && h.base <= l && l + MIN_BLOCK <= a && !h.blocks[a].used
    ensures Within(keep, h.blocks) && (forall i :: 0 <= i < |h.free| ==> h.free[i] !in keep)
    ensures a !in Without(h.free, l) && l !in Without(h.free, l)
    ensures var whole := Block(h.blocks[l].size + h.blocks[a].size, false, false);
            var M := (h.blocks - {a})[l := whole];
            && MIN_BLOCK <= whole.size < TAG_LIMIT - 1 && whole.size % 16 == 0 && l + whole.size <= |m|
            && a + MIN_BLOCK <= l + whole.size
            && Ready(M, |m|, keep) && Within(keep, M - {l})
  {
    var whole := Block(h.blocks[l].size + h.blocks[a].size, false, false);
    assert h.blocks[l].Shaped() && h.blocks[a].Shaped();
    SumOf16(h.blocks[l].size, h.blocks[a].size);
    MergeTiles(h.blocks, h.Lo(), h.Top(), l, a, whole);
    TilesFit((h.blocks - {a})[l := whole], m, h.base, h.Top());
    WithoutListed(h.blocks - {a}, h.free, l);
  }

  /** Retagging and listing the block that ends with a's leaves a's header word. */
  lemma InnerWordKept(m: Bytes, m1: Bytes, a: int, l: int, size: int, next: int)
    requires |m| == |m1| && SameBytes(m, m1, a, 4) && next >= 0
    requires 0 <= l && l + MIN_BLOCK <= a && a + MIN_BLOCK <= l + size <= |m| && size < TAG_LIMIT - 1
    ensures SameBytes(m, Store(Format.SetTags(m1, l, size, false), l + 4, WORD_LINK, next), a, 4)
  {
    SetTagsEffect(m1, l, size, false);
  }

  /** A block whose tags are the same in two memories has the same header word. */
  lemma WordKept(m: Bytes, r: Bytes, base: int, L: Blocks, heads: seq<int>, lists: seq<seq<int>>,
                 heads': seq<int>, lists': seq<seq<int>>, a: int)
    requires |m| == |r| && Wired(m, base, L, heads, lists) && Wired(r, base, L, heads', lists') && a in L
    ensures SameBytes(m, r, a, 4)
  {
    assert TagsAt(m, a, L[a]) && TagsAt(r, a, L[a]);
    DecodeInjective(m[a..a + 4], r[a..a + 4]);
    assert forall i :: a <= i < a + 4 ==> m[i] == m[a..a + 4][i - a] && r[i] == r[a..a + 4][i - a];
  }

  /** A block in use is on no list and apart from the others in use. */
  lemma LiveSteps(h: Heap, a: int)
    requires h.Valid() && a in Used(h.blocks)
    ensures a in h.blocks && Listless([h.free], a)
    ensures Within(Used(h.blocks) - {a}, h.blocks - {a})
  {
  }

  lemma LiveAddress(h: Heap, a: int)
    requires h.Valid() && a in Used(h.blocks)
    ensures a >= 16
  {
    hide Tiles, Listed;
    UsedAt(h.blocks, a);
    BlockInside(h.blocks, h.Lo(), h.Top(), a);
  }

  lemma CallocSteps(h: Heap, g: Heap, p: int, total: int)
    requires h.Valid() && Requestable(h.Top(), total) && (g, p) == FirstFitHeap.Malloc(h, total) && p != 0
    ensures p - 4 in g.blocks && total <= g.blocks[p - 4].size - OVERHEAD && Listless([g.free], p - 4)
    ensures Within(Used(h.blocks), g.blocks - {p - 4}) && p > 4
  {
    hide Heap.Valid, FirstFitHeap.Malloc, Need, Used, Listless;
    MallocValid(h, total);
    NeedExact(total);
    UsedAt(g.blocks, p - 4);
    LiveSteps(g, p - 4);
    LiveAddress(g, p - 4);
    assert Used(g.blocks) - {p - 4} == Used(h.blocks);
  }

  lemma GrowSteps(h: Heap, m: Bytes, a: int, r: int, new_: int, keep: Blocks)
    requires h.Valid() && |m| == h.base + ARENA_SIZE && a in h.blocks && h.blocks[a].used && keep == Used(h.blocks)
    requires r == Next(h.blocks, a) && CanGrow(h, a, new_)
    requires new_ > h.blocks[a].size && new_ % 16 == 0
    ensures h.base <= a && r > a && Within(keep, h.blocks)
    ensures (forall k :: 0 <= k < |h.free| ==> h.free[k] !in keep)
    ensures r !in Without(h.free, r) && Tiles(h.blocks, h.Lo(), h.Top())
    ensures var combined := h.blocks[a].size + h.blocks[r].size;
            && MIN_BLOCK <= combined < TAG_LIMIT - 1 && combined % 16 == 0 && a + combined <= |m|
            && (combined < new_ + MIN_BLOCK ==> Ready((h.blocks - {r})[a := Block(combined, true, true)], |m|, keep))
  {
    hide Tiles, Listed, Ready, Used, Within;
    var whole := Block(h.blocks[a].size + h.blocks[r].size, true, true);
    BlockInside(h.blocks, h.Lo(), h.Top(), a);
    BlockInside(h.blocks, h.Lo(), h.Top(), r);
    SumOf16(h.blocks[a].size, h.blocks[r].size);
    WithoutListed(h.blocks, h.free, r);
    ListedUnused(h.blocks, h.free);
    UsedMerges(h.blocks, a, r, whole);
    MergeTiles(h.blocks, h.Lo(), h.Top(), a, r, whole);
    TilesReady((h.blocks - {r})[a := whole], m, h.base, h.Top(), keep);
  }

  lemma ListedUnused(L: Blocks, free: seq<int>)
    requires Listed(L, free)
    ensures forall k :: 0 <= k < |free| ==> free[k] !in Used(L)
  {
  }

  lemma UsedMerges(L: Blocks, a: int, r: int, whole: Block)
    requires a in L && r in L && !L[r].used && L[a].size <= whole.size
    ensures Within(Used(L), L) && Within(Used(L), (L - {r})[a := whole])
  {
  }

  lemma GrowSplitSteps(h: Heap, m: Bytes, a: int, r: int, new_: int, keep: Blocks)
    requires h.Valid() && |m| == h.base + ARENA_SIZE && a in h.blocks && h.blocks[a].used && keep == Used(h.blocks)
    requires r == Next(h.blocks, a) && CanGrow(h, a, new_)
    requires new_ > h.blocks[a].size && new_ % 16 == 0
    requires h.blocks[a].size + h.blocks[r].size >= new_ + MIN_BLOCK
    ensures var split, rest := a + new_, Block(h.blocks[a].size + h.blocks[r].size - new_, false, false);
            var L := h.blocks - {r};
            && split !in L && split !in Without(h.free, r) && rest.size % 16 == 0
            && Ready(L[split := rest], |m|, keep) && Within(keep, L[split := rest] - {split})
            && Ready(L[a := Block(new_, true, true)][split := rest], |m|, keep)
  {
    hide Tiles, Listed, Ready, Used, Within;
    var L, split := h.blocks - {r}, a + new_;
    var rest := Block(h.blocks[a].size + h.blocks[r].size - new_, false, false);
    var M := L[a := Block(new_, true, true)][split := rest];
    BlockInside(h.blocks, h.Lo(), h.Top(), a);
    BlockInside(h.blocks, h.Lo(), h.Top(), r);
    SumOf16(h.blocks[a].size, h.blocks[r].size);
    SumOf16(h.blocks[a].size + h.blocks[r].size, new_);
    GrowTiles(h.blocks, h.Lo(), h.Top(), a, r, new_);
    UsedGrows(h.blocks, a, r, split, new_, rest);
    WithoutListed(h.blocks, h.free, r);
    NotListed(L, Without(h.free, r), split);
    TilesReady(M, m, h.base, h.Top(), keep);
    FrontReady(M, |m|, a, h.blocks[a], keep);
    assert M[a := h.blocks[a]] == L[split := rest];
  }

  /** Blocks in use stay where they are while one of them takes over a free one. */
  lemma UsedGrows(L: Blocks, a: int, r: int, split: int, new_: int, rest: Block)
    requires a in L && r in L && L[a].used && !L[r].used && L[a].size < new_ && a != split
    requires split !in L - {r}
    ensures var U, F := Used(L), (L - {r})[split := rest];
            && Within(U, F) && Within(U, F - {split})
            && Within(U, (L - {r})[a := Block(new_, true, true)][split := rest])
            && (a in U ==> U[a].size <= L[a].size)
  {
  }

  lemma NotListed(L: Blocks, free: seq<int>, x: int)
    requires Listed(L, free) && x !in L
    ensures x !in free
  {
  }

  lemma TilesReady(L: Blocks, m: Bytes, base: int, hi: int, keep: Blocks)
    requires Tiles(L, base + FIRST_PAD, hi) && hi <= base + ARENA_SIZE == |m| && ArenaAt(base)
    requires Within(keep, L)
    ensures Ready(L, |m|, keep)
  {
    TilesFit(L, m, base, hi);
  }

  lemma FrontReady(L: Blocks, length: int, a: int, front: Block, keep: Blocks)
    requires Ready(L, length, keep) && a in L && front.Shaped() && front.size <= L[a].size
    requires a in keep ==> keep[a].size <= front.size
    ensures Ready(L[a := front], length, keep)
  {
    FrontPacked(L, a, front);
  }

  lemma ShrinkSteps(h: Heap, m: Bytes, a: int, new_: int, keep: Blocks)
    requires h.Valid() && |m| == h.base + ARENA_SIZE && a in h.blocks && h.blocks[a].used
    requires MIN_BLOCK <= new_ && new_ + MIN_BLOCK <= h.blocks[a].size && new_ % 16 == 0
    requires keep == Used(h.blocks)[a := Block(new_, true, true)]
    ensures var L1 := h.blocks[a := Block(new_, true, true)];
            var rest := h.blocks[a].size - new_;
            var L2 := L1[a + new_ := Block(rest, false, false)];
            && Ready(L1, |m|, keep) && Ready(L2, |m|, keep) && Within(keep, L2 - {a + new_})
            && a + new_ !in h.blocks && a + new_ !in h.free
            && h.base <= a && a + h.blocks[a].size <= |m|
            && new_ < TAG_LIMIT - 1 && MIN_BLOCK <= rest < TAG_LIMIT - 1 && rest % 16 == 0
  {
    assert Within(map[], h.blocks);
    SplitSteps(m, h.base, h.cur, h.blocks, a, new_, map[]);
  }

  lemma SplitOrder(L: Blocks, a: int, front: Block, split: int, rest: Block)
    requires a != split
    ensures L[split := rest][a := front] == L[a := front][split := rest]
  {
  }

  lemma MoveSteps(h: Heap, p: int, size: int)
    requires h.Valid() && p != 0 && p - 4 in Used(h.blocks)
    requires 0 <= size < SIZE_LIMIT && h.blocks[p - 4].size < NewSize(size)
    ensures Requestable(h.Top(), NewSize(size)) && h.blocks[p - 4].size >= OVERHEAD
    ensures var (g, q) := FirstFitHeap.Malloc(h, NewSize(size));
            && (q != 0 ==>
                  && q - 4 != p - 4 && p - 4 in g.blocks && q - 4 in g.blocks && Listless([g.free], q - 4)
                  && p - 4 in Used(g.blocks) && Used(g.blocks) == Used(h.blocks)[q - 4 := g.blocks[q - 4]]
                  && q - 4 !in Used(h.blocks)
                  && g.blocks[p - 4] == h.blocks[p - 4] && g.blocks[q - 4].size == NewSize(size) + 16
                  && Within(Used(h.blocks), g.blocks - {q - 4}))
  {
    hide FirstFitHeap.Malloc, NewSize, Tiles, Listed;
    BlockInside(h.blocks, h.Lo(), h.Top(), p - 4);
    NewSizeRequestable(h, size);
    MallocValid(h, NewSize(size));
    var (g, q) := FirstFitHeap.Malloc(h, NewSize(size));
    if q != 0 {
      assert q - 4 in Used(g.blocks) && p - 4 in Used(g.blocks);
      LiveSteps(g, q - 4);
      assert Used(g.blocks) - {q - 4} == Used(h.blocks);
    }
  }

  lemma RightIs(h: Heap, a: int)
    requires h.Valid() && a in h.blocks
    ensures Next(h.blocks, a) in h.blocks <==> Next(h.blocks, a) < h.cur
  {
  }

  /** In place, the payload's bytes are simply still there. */
  lemma StaysPut(m: Bytes, r: Bytes, keep: Blocks, kept: Blocks, p: int)
    requires KeepsPayloads(m, r, kept) && p - 4 in kept
    requires forall a :: a in keep && a != p - 4 ==> a in kept && kept[a] == keep[a]
    ensures KeepsPayloads(m, r, keep - {p - 4})
    ensures Copied(m, r, p, p, kept[p - 4].size - OVERHEAD)
  {
    assert SameBytes(m, r, p, kept[p - 4].size - OVERHEAD);
    forall a | a in keep - {p - 4} ensures SameBytes(m, r, a + 4, keep[a].size - OVERHEAD) {
      assert SameBytes(m, r, a + 4, kept[a].size - OVERHEAD);
    }
  }

  /** The walk by address and the free list meet the same blocks. */
  lemma AllFree(h: Heap)
    requires h.Valid()
    ensures forall x :: x in FreeStarts(h.blocks, h.Lo(), h.Top()) <==> x in h.free
    ensures |FreeStarts(h.blocks, h.Lo(), h.Top())| == |h.free|
    ensures ArenaAt(h.base) && BreakAt(h.base, h.cur) && Tiles(h.blocks, h.Lo(), h.Top())
  {
    var all := FreeStarts(h.blocks, h.Lo(), h.Top());
    FreeStartsAll(h.blocks, h.Lo(), h.Top(), h.Lo());
    hide FreeStarts;
    forall x | x in h.free ensures x in all {
      assert x in h.blocks && !h.blocks[x].used;
    }
    DistinctWithin(all, h.free);
    DistinctWithin(h.free, all);
  }

  lemma FreeNodes(h: Heap)
    requires h.Valid()
    ensures forall k :: 0 <= k < |h.free| ==>
              h.free[k] in h.blocks && !h.blocks[h.free[k]].used && h.Lo() <= h.free[k] < h.cur && h.cur > h.base
  {
    forall k | 0 <= k < |h.free| ensures h.Lo() <= h.free[k] < h.Top() {
      assert h.free[k] in h.blocks;
    }
  }

  lemma BreakCases(h: Heap)
    requires h.Valid()
    ensures h.base > 0 && (h.cur == 0 || h.cur == h.base || h.cur > h.Lo())
  {
  }

  lemma MaskedOutSteps(h: Heap, a: int)
    requires h.Valid() && a in Used(h.blocks)
    ensures a in h.blocks && h.base + 4 <= a && MIN_BLOCK <= h.blocks[a].size < TAG_LIMIT && h.blocks[a].size % 2 == 0
  {
    hide Tiles, Listed;
    BlockInside(h.blocks, h.Lo(), h.Top(), a);
  }

  /** The whole story of realloc's size argument: a block large enough for the
      request comes back exactly when size + 23 fits in 32 bits. */
  lemma ReallocHolds(h: Heap, p: int, size: int)
    requires h.Valid() && p != 0 && p - 4 in Used(h.blocks)
    requires 0 < size < SIZE_LIMIT && NewSize(size) >= MIN_BLOCK
    ensures var (g, q) := FirstFitHeap.Realloc(h, p, size);
            q != 0 ==> q - 4 in g.blocks && (g.blocks[q - 4].size - OVERHEAD >= size <==> size + 23 < TAG_LIMIT)
  {
    hide FirstFitHeap.Realloc, NewSize, Heap.Valid;
    ReallocValid(h, p, size);
    NewSizeExact(size);
    var (g, q) := FirstFitHeap.Realloc(h, p, size);
    if q != 0 {
      assert q - 4 in Used(g.blocks);
    }
  }

  lemma StateView(h: Heap, m: Bytes)
    requires h.Valid() && |m| == h.base + ARENA_SIZE
    ensures ViewOf(m, Used(h.blocks)).Valid()
  {
    hide Tiles, Listed, Used;
    TilesView(m, h.base, h.Top(), h.blocks);
  }

  lemma LiveBounds(h: Heap, m: Bytes, p: int)
    requires h.Valid() && |m| == h.base + ARENA_SIZE && p - 4 in Used(h.blocks)
    ensures p - 4 in h.blocks && Used(h.blocks)[p - 4] == h.blocks[p - 4]
    ensures h.base <= p - 4 && p <= |m| && p != 0
  {
    hide Tiles, Listed;
    TilesLive(h.base, h.Top(), h.blocks, p);
  }

  lemma MallocView(h: Heap, g: Heap, m: Bytes, r: Bytes, size: int, p: int)
    requires h.Valid() && Requestable(h.Top(), size) && (g, p) == FirstFitHeap.Malloc(h, size)
    requires |m| == |r| == h.base + ARENA_SIZE && KeepsPayloads(m, r, Used(h.blocks))
    ensures ViewOf(r, Used(g.blocks)).Valid()
    ensures Client.Allocated(ViewOf(m, Used(h.blocks)), size, p, ViewOf(r, Used(g.blocks)))
  {
    hide Heap.Valid, KeepsPayloads, Used, Client.View.Valid, LiveOf, FirstFitHeap.Malloc, Need;
    MallocValid(h, size);
    StateView(g, r);
    AllocatedFrom(m, r, Used(h.blocks), Used(g.blocks), size, p);
  }

  lemma FreeView(h: Heap, g: Heap, m: Bytes, r: Bytes, p: int)
    requires h.Valid() && g == FirstFitHeap.Free(h, p)
    requires |m| == |r| == h.base + ARENA_SIZE && KeepsPayloads(m, r, Used(h.blocks) - {p - 4})
    requires p == 0 ==> m == r
    ensures ViewOf(r, Used(g.blocks)).Valid()
    ensures p != 0 ==> Client.Released(ViewOf(m, Used(h.blocks)), p, ViewOf(r, Used(g.blocks)))
    ensures p == 0 ==> g == h && Client.OthersKept(ViewOf(m, Used(h.blocks)), ViewOf(r, Used(g.blocks)), {})
  {
    assert p == 0 ==> g == h;
    hide Heap.Valid, KeepsPayloads, Used, Client.View.Valid, LiveOf, FirstFitHeap.Free;
    FreeValid(h, p);
    StateView(g, r);
    ReleasedFrom(m, r, Used(h.blocks), p);
    KeepsAll(m, Used(h.blocks));
    if p == 0 {
      KeptAllFrom(m, r, Used(h.blocks), ViewOf(r, Used(g.blocks)));
    }
  }

  lemma ReallocView(h: Heap, g: Heap, m: Bytes, r: Bytes, p: int, size: int, q: int)
    requires h.Valid() && p != 0 && p - 4 in Used(h.blocks) && 0 < size && size + 23 < TAG_LIMIT
    requires (g, q) == FirstFitHeap.Realloc(h, p, size)
    requires |m| == |r| == h.base + ARENA_SIZE
    requires KeepsPayloads(m, r, if q == 0 then Used(h.blocks) else Used(h.blocks) - {p - 4})
    requires q != 0 ==> Copied(m, r, p, q, Lesser(h.blocks[p - 4].size, NewSize(size)) - OVERHEAD)
    ensures ViewOf(r, Used(g.blocks)).Valid() && p in ViewOf(m, Used(h.blocks)).live
    ensures Client.Resized(ViewOf(m, Used(h.blocks)), p, size, q, ViewOf(r, Used(g.blocks)))
  {
    hide Heap.Valid, KeepsPayloads, Client.View.Valid, LiveOf, FirstFitHeap.Realloc, NewSize, Copied;
    NewSizeExact(size);
    ReallocValid(h, p, size);
    StateView(g, r);
    ResizedFrom(m, r, Used(h.blocks), Used(g.blocks), p, size, q,
      Lesser(h.blocks[p - 4].size, NewSize(size)) - OVERHEAD);
  }
}
