/** The segregated allocator of src/segregated_allocator.c on raw bytes. */
module Segregated {
  import opened Memory
  import opened Layout
  import opened Format
  import opened FreeLists
  import opened Arenas
  import opened SegregatedHeap
  import opened SegregatedLaws
  import Client = ClientStore
  import opened Bridge

  /** The abstract heap's answer to a call. */
  ghost function Served(h: Heap, c: Client.Call): (Heap, int)
    requires |h.bins| == NUM_BINS
  {
    match c
    case Malloc(size) => if 0 <= size < SIZE_LIMIT then SegregatedHeap.Malloc(h, size) else (h, 0)
    case Calloc(nmemb, size) => if 0 < nmemb * size < SIZE_LIMIT then SegregatedHeap.Malloc(h, nmemb * size) else (h, 0)
    case Realloc(p, size) => if 0 <= size < SIZE_LIMIT then SegregatedHeap.Realloc(h, p, size) else (h, 0)
    case Free(p) => (SegregatedHeap.Free(h, p), 0)
    case Write(_, _, _) => (h, 0)
  }

  /** Memory, heads and strays after malloc at a size that is not sane: the leftover of the
      first listed block goes to the bin of its own tag. */
  ghost predicate WrappedStores(
    h: Heap, size: int, m: Bytes, heads: seq<int>, m': Bytes, heads': seq<int>, outside: bool)
    requires 0 <= size < SIZE_LIMIT
  {
    var need := Need(size);
    var bin := Bin(need);
    && |h.bins| == NUM_BINS && |heads| == NUM_BINS
    && var head := At(h.bins[bin], 0);
       && (head != 0 ==> InBounds(m, head + 4, WORD_LINK))
       && var chunk, next := SizeOf(h.blocks, head), LinkOf(m, head);
          var rest := Bin((chunk - need) % TAG_LIMIT);
          var link := if rest == bin then next else heads[rest];
          && link >= 0 && m' == WrappedBytes(m, h.base, h.cur, head, chunk, need, link)
          && heads' == (if head != 0 && TakesHead(need)
                        then heads[bin := next][rest := (head + need) % SIZE_LIMIT]
                        else heads)
          && outside == Strays(h.base, h.cur, head, need)
  }

  class Allocator {
    const arena: Arena
    var liveRealBytes: int
    var peakLiveRealBytes: int

    ghost function State(): Heap
      reads this, arena
    {
      Heap(arena.base, arena.blocks, arena.lists, arena.arenaCur, liveRealBytes, peakLiveRealBytes)
    }

    ghost predicate Valid()
      reads this, arena, arena.mem
    {
      && |arena.lists| == NUM_BINS
      && arena.Sound() && arena.Statics()
      && State().Valid()
      && arena.freelistLen == TotalLength(arena.lists)
    }

    constructor (base: int)
      requires ArenaAt(base)
      ensures Valid() && State() == Empty(base)
      ensures fresh(arena) && fresh(arena.mem)
    {
      arena := new Arena(base, NUM_BINS);
      liveRealBytes, peakLiveRealBytes := 0, 0;
      new;
      EmptyLength(NUM_BINS);
      assert arena.lists == Empty(base).bins == Empties(NUM_BINS);
    }

    /** live_add. */
    method CountLive(n: int)
      modifies this`liveRealBytes, this`peakLiveRealBytes
      ensures liveRealBytes == old(liveRealBytes) + n
      ensures peakLiveRealBytes
              == if liveRealBytes > old(peakLiveRealBytes) then liveRealBytes else old(peakLiveRealBytes)
    {
      liveRealBytes := liveRealBytes + n;
      if liveRealBytes > peakLiveRealBytes {
        peakLiveRealBytes := liveRealBytes;
      }
    }

    /** Everything but the abstract heap being valid: the state inside an operation. */
    ghost predicate Settled()
      reads this, arena, arena.mem
    {
      && |arena.lists| == NUM_BINS
      && arena.Sound() && arena.Statics()
      && arena.freelistLen == TotalLength(arena.lists)
    }

    /** A bin hit: put the k-th block of the bin to use. */
    method TakeFrom(link: int, node: int, chunk: int, need: int, bin: nat, ghost k: nat, ghost keep: Blocks)
      requires Settled() && arena.Tiled() && bin < NUM_BINS
      requires k < |arena.lists[bin]| && arena.LinkCell(link, bin, k) && node == arena.lists[bin][k]
      requires node in arena.blocks && chunk == arena.blocks[node].size >= need
      requires need >= MIN_BLOCK && need % 16 == 0
      requires Within(keep, arena.blocks) && node !in keep && (k > 0 ==> arena.lists[bin][k - 1] !in keep)
      modifies this, arena, arena.mem
      ensures Settled() && (State(), node + 4) == Take(old(State()), bin, k, need)
      ensures KeepsPayloads(old(arena.mem[..]), arena.mem[..], keep)
    {
      hide Tiles, KeepsPayloads, Within, Wired, RemoveAt, Bin, TotalLength, TakeOff;
      LengthTakeOff(arena.lists, bin, k);
      if chunk >= need + MIN_BLOCK {
        CountLive(need);
        var restBin := Bin(chunk - need);
        LengthPutOn(TakeOff(arena.lists, bin, k), restBin, node + need);
        arena.TakeSplit(link, node, chunk, need, bin, restBin, k, keep);
      } else {
        arena.TakeWhole(link, node, chunk, bin, k, keep);
        CountLive(chunk);
      }
    }

    /** my_malloc. Only the bin of the rounded size is searched. */
    method Malloc(size: int) returns (p: int, steps: nat)
      requires Valid() && Sane(State().Top(), size)
      modifies this, arena, arena.mem
      ensures Valid() && (State(), p) == SegregatedHeap.Malloc(old(State()), size)
      ensures KeepsPayloads(old(arena.mem[..]), arena.mem[..], Used(old(arena.blocks)))
      ensures steps <= |old(arena.lists)[Bin(Need(size))]|
      ensures SingleSize(Bin(Need(size))) ==> steps <= 1
      ensures Answered(old(State()), State(), p, Need(size))
    {
      hide Heap.Valid, Tiles, KeepsPayloads, Within, Used, Wired, SegregatedHeap.Malloc, Bin, Need, TotalLength, Take;
      hide Answered;
      var need := Need(size);
      ghost var h, keep := State(), Used(arena.blocks);
      MallocSteps(h);
      var bin := Bin(need);
      var link, node, chunk, scanned, k := arena.FindFit(bin, need);
      steps := scanned;
      MallocIsBinFit(h, size, k);
      MallocServed(h, size);
      if SingleSize(bin) { SingleSizeScan(h, size, k); }
      if node == 0 {
        p := arena.Carve(need);
        if p != 0 { CountLive(need); }
        KeepsWithin(old(arena.mem[..]), arena.mem[..], keep, h.blocks);
      } else {
        TakeFrom(link, node, chunk, need, bin, k, keep);
        p := node + 4;
      }
    }

    /** my_malloc at the sizes where its steps do not make sense, as for the first-fit
        allocator; the live count moves by the rounded size in 64-bit arithmetic. */
    method MallocWrapped(size: int) returns (p: int, outside: bool)
      requires Valid() && 0 <= size < SIZE_LIMIT && !Sane(State().Top(), size)
      modifies this, arena`arenaBase, arena`arenaCur, arena`arenaEnd, arena`heapLo, arena`heapHi
      modifies arena`heads, arena`freelistLen, arena.mem
      ensures var o := MallocOutcome(old(State()), size);
              && p == o.p && arena.arenaCur == o.cur && 4 <= p <= arena.mem.Length
              && TagSize(Load(arena.mem[..], p - 4, WORD_TAG)) == o.room + OVERHEAD
      ensures WrappedStores(old(State()), size, old(arena.mem[..]), old(arena.heads),
                            arena.mem[..], arena.heads, outside)
      ensures liveRealBytes == (old(liveRealBytes) + Need(size)) % SIZE_LIMIT
      ensures peakLiveRealBytes
              == if liveRealBytes > old(peakLiveRealBytes) then liveRealBytes else old(peakLiveRealBytes)
    {
      hide Heap.Valid, Wired, Tiles, Load, WrappedBytes, Wrapped, Need, Bin, TotalLength, Strays;
      ghost var h, m := State(), arena.mem[..];
      var bin := Bin(Need(size));
      ghost var head := At(h.bins[bin], 0);
      MallocSteps(h);
      InsaneWraps(h.base, h.cur, size);
      HeadInside(m, h.base, h.cur, h.blocks, arena.heads, arena.lists, bin);
      HeadBound(m, h.base, h.blocks, arena.heads, arena.lists);
      ghost var rest := Bin((SizeOf(h.blocks, head) - Need(size)) % TAG_LIMIT);
      ghost var link := if rest == bin then LinkOf(m, head) else arena.heads[rest];
      WrappedHeader(m, h.base, h.cur, head, SizeOf(h.blocks, head), Need(size), link);
      p, outside := arena.MallocWrapped(bin, Need(size), x => Bin(x));
      liveRealBytes := (liveRealBytes + Need(size)) % SIZE_LIMIT;
      if liveRealBytes > peakLiveRealBytes {
        peakLiveRealBytes := liveRealBytes;
      }
    }

    /** p is null, or the word below it can be read and, if flagged used, is a header. */
    ghost predicate Freeable(p: int)
      reads arena, arena.mem
    {
      p == 0 ||
      (0 <= arena.base <= p - 4 && p <= arena.mem.Length &&
       (TagFlag(Load(arena.mem[..], p - 4, WORD_TAG)) ==> p - 4 in arena.blocks))
    }

    /** my_free. */
    method Free(p: int)
      requires Valid() && Freeable(p)
      modifies this, arena, arena.mem
      ensures Valid() && State() == SegregatedHeap.Free(old(State()), p)
      ensures KeepsPayloads(old(arena.mem[..]), arena.mem[..], Used(old(arena.blocks)) - {p - 4})
      ensures p == 0 || !TagFlag(old(Load(arena.mem[..], p - 4, WORD_TAG))) ==>
                unchanged(this) && unchanged(arena) && unchanged(arena.mem)
    {
      hide Heap.Valid, Wired, KeepsPayloads, Used, Load, Within, Bin, TotalLength, Listless;
      ghost var h, m, keep := State(), arena.mem[..], Used(arena.blocks) - {p - 4};
      KeepsAll(m, keep);
      if p == 0 { return; }
      var header := p - 4;
      FlagMatches(m, arena.base, arena.blocks, arena.heads, arena.lists, header);
      var tag := LoadWord(arena.mem, header, WORD_TAG);
      if !TagFlag(tag) { return; }
      FreeValid(h, p);
      UsedAt(h.blocks, header);
      LiveSteps(h, header);
      arena.ClearUsed(header, keep);
      ghost var m1 := arena.mem[..];
      var size, used := arena.HeaderTag(header);
      liveRealBytes := liveRealBytes - size;
      var bin := Bin(size);
      LengthPutOn(arena.lists, bin, header);
      arena.Push(header, bin, keep);
      KeepsTrans(m, m1, arena.mem[..], keep);
    }

    /** A client store into a live payload. */
    method Write(p: int, i: int, v: byte)
      requires Valid() && p - 4 in Used(arena.blocks) && 0 <= i < arena.blocks[p - 4].size - OVERHEAD
      modifies arena.mem
      ensures Valid() && State() == old(State())
      ensures 0 <= p + i < arena.mem.Length && arena.mem[..] == old(arena.mem[..])[p + i := v]
      ensures KeepsPayloads(old(arena.mem[..]), arena.mem[..], Used(old(arena.blocks)) - {p - 4})
    {
      hide Heap.Valid, Wired, KeepsPayloads, Within, Used, Listless;
      LiveSteps(State(), p - 4);
      arena.WriteByte(p - 4, i, v, Used(arena.blocks) - {p - 4});
    }

    /** my_calloc. */
    method Calloc(nmemb: int, size: int) returns (p: int)
      requires Valid() && 0 <= nmemb < SIZE_LIMIT && 0 <= size < SIZE_LIMIT
      requires 0 < nmemb * size < SIZE_LIMIT ==> Requestable(State().Top(), nmemb * size)
      modifies this, arena, arena.mem
      ensures Valid()
      ensures !(0 < nmemb * size < SIZE_LIMIT) ==>
                p == 0 && State() == old(State()) && arena.mem[..] == old(arena.mem[..])
      ensures 0 < nmemb * size < SIZE_LIMIT ==> (State(), p) == SegregatedHeap.Malloc(old(State()), nmemb * size)
      ensures p != 0 ==> 0 < p && p + nmemb * size <= arena.mem.Length
      ensures p != 0 ==> forall i :: p <= i < p + nmemb * size ==> arena.mem[i] == 0
      ensures KeepsPayloads(old(arena.mem[..]), arena.mem[..], Used(old(arena.blocks)))
    {
      hide Heap.Valid, Wired, KeepsPayloads, Within, Used, SegregatedHeap.Malloc, Listless, Bin, Need, TotalLength;
      ghost var h, m, keep := State(), arena.mem[..], Used(arena.blocks);
      KeepsAll(m, keep);
      p := 0;
      if nmemb == 0 || size == 0 { return; }
      OverflowTest(nmemb, size);
      if nmemb > (SIZE_LIMIT - 1) / size { return; }
      var total := nmemb * size;
      var steps;
      p, steps := Malloc(total);
      if p != 0 {
        ghost var m1 := arena.mem[..];
        NewSteps(h, State(), p, total);
        arena.ZeroPayload(p - 4, total, keep);
        KeepsTrans(m, m1, arena.mem[..], keep);
      }
    }

    /** my_realloc: always allocate, copy what fits, free. */
    method Realloc(p: int, size: int) returns (q: int)
      requires Valid() && 0 <= size < SIZE_LIMIT
      requires p == 0 || size != 0 ==> Requestable(State().Top(), size)
      requires p != 0 ==> p - 4 in Used(arena.blocks)
      modifies this, arena, arena.mem
      ensures Valid() && (State(), q) == SegregatedHeap.Realloc(old(State()), p, size)
      ensures KeepsPayloads(old(arena.mem[..]), arena.mem[..],
                            if p == 0 || (q == 0 && size != 0) then Used(old(arena.blocks))
                            else Used(old(arena.blocks)) - {p - 4})
      ensures p != 0 && q != 0 ==>
                Copied(old(arena.mem[..]), arena.mem[..], p, q, Lesser(old(arena.blocks)[p - 4].size - OVERHEAD, size))
    {
      hide Heap.Valid, Wired, KeepsPayloads, Within, SegregatedHeap.Malloc, SegregatedHeap.Free, Listless, Bin, Need;
      hide TotalLength, Copied, Load, Used;
      var steps;
      if p == 0 {
        q, steps := Malloc(size);
        return;
      }
      ghost var h, m, keep := State(), arena.mem[..], Used(arena.blocks);
      LiveSteps(h, p - 4);
      WiredBounds(m, arena.base, arena.blocks, arena.heads, arena.lists, p - 4);
      if size == 0 {
        Free(p);
        return 0;
      }
      q, steps := Malloc(size);
      if q == 0 { return; }
      ghost var g, m1 := State(), arena.mem[..];
      NewSteps(h, g, q, size);
      OldSteps(h, g, p, q, size);
      var oldSize, used := arena.HeaderTag(p - 4);
      var copy := if oldSize - OVERHEAD < size then oldSize - OVERHEAD else size;
      arena.CopyPayload(q - 4, p - 4, copy, keep);
      ghost var m2 := arena.mem[..];
      KeepsTrans(m, m1, m2, keep);
      Free(p);
      MoveKeeps(h.blocks, g.blocks, p, q, copy, m, m1, m2, arena.mem[..]);
    }

    // --- the client's view -------------------------------------------------------

    ghost function View(): Client.View
      reads this, arena, arena.mem
    {
      ViewOf(arena.mem[..], Used(arena.blocks))
    }

    /** Calls whose size arithmetic does not wrap. */
    ghost predicate InRange(c: Client.Call)
      reads this, arena
    {
      match c
      case Malloc(size) => Requestable(State().Top(), size)
      case Calloc(nmemb, size) =>
        && 0 <= nmemb < SIZE_LIMIT && 0 <= size < SIZE_LIMIT
        && (0 < nmemb * size < SIZE_LIMIT ==> Requestable(State().Top(), nmemb * size))
      case Realloc(p, size) => 0 <= size && (p == 0 || size != 0 ==> Requestable(State().Top(), size))
      case Free(_) => true
      case Write(_, _, _) => true
    }

    method PerformMalloc(size: int) returns (r: int)
      requires Valid() && InRange(Client.Malloc(size))
      modifies this, arena, arena.mem
      ensures Valid() && (State(), r) == Served(old(State()), Client.Malloc(size))
      ensures Client.Contract(old(View()), Client.Malloc(size), r, View())
    {
      hide Heap.Valid, Wired, KeepsPayloads, Used, Client.View.Valid, LiveOf, SegregatedHeap.Malloc, Need, Bin,
        TotalLength;
      ghost var h, m := State(), arena.mem[..];
      var steps;
      r, steps := Malloc(size);
      MallocView(h, State(), m, arena.mem[..], size, r);
    }

    method PerformCalloc(nmemb: int, size: int) returns (r: int)
      requires Valid() && InRange(Client.Calloc(nmemb, size))
      modifies this, arena, arena.mem
      ensures Valid() && (State(), r) == Served(old(State()), Client.Calloc(nmemb, size))
      ensures Client.Contract(old(View()), Client.Calloc(nmemb, size), r, View())
    {
      hide Heap.Valid, Wired, KeepsPayloads, Used, Client.View.Valid, LiveOf, SegregatedHeap.Malloc, Need, Bin,
        TotalLength;
      ghost var h, m := State(), arena.mem[..];
      r := Calloc(nmemb, size);
      if 0 < nmemb * size < SIZE_LIMIT {
        MallocView(h, State(), m, arena.mem[..], nmemb * size, r);
      } else {
        StateView(h, m);
        AllocatedFrom(m, m, Used(h.blocks), Used(h.blocks), nmemb * size, 0);
      }
    }

    method PerformRealloc(p: int, size: int) returns (r: int)
      requires Valid() && Client.Permitted(View(), Client.Realloc(p, size)) && InRange(Client.Realloc(p, size))
      modifies this, arena, arena.mem
      ensures Valid() && (State(), r) == Served(old(State()), Client.Realloc(p, size))
      ensures Client.Contract(old(View()), Client.Realloc(p, size), r, View())
    {
      hide Heap.Valid, Wired, KeepsPayloads, Used, Client.View.Valid, LiveOf, SegregatedHeap.Realloc, TotalLength;
      hide SegregatedHeap.Malloc, SegregatedHeap.Free, Need, Bin, Copied;
      ghost var h, m := State(), arena.mem[..];
      if p != 0 {
        LiveAt(Used(h.blocks), p);
        LiveBounds(h, m, p);
      }
      r := Realloc(p, size);
      ReallocIs(h, p, size);
      if p == 0 {
        MallocView(h, State(), m, arena.mem[..], size, r);
      } else if size == 0 {
        FreeView(h, State(), m, arena.mem[..], p);
      } else {
        ReallocView(h, State(), m, arena.mem[..], p, size, r);
      }
    }

    method PerformFree(p: int)
      requires Valid() && Client.Permitted(View(), Client.Free(p))
      modifies this, arena, arena.mem
      ensures Valid() && (State(), 0) == Served(old(State()), Client.Free(p))
      ensures Client.Contract(old(View()), Client.Free(p), 0, View())
    {
      hide Heap.Valid, Wired, KeepsPayloads, Used, Client.View.Valid, LiveOf, SegregatedHeap.Free, Load, TotalLength;
      ghost var h, m := State(), arena.mem[..];
      if p != 0 {
        LiveAt(Used(h.blocks), p);
        LiveBounds(h, m, p);
      }
      Free(p);
      FreeView(h, State(), m, arena.mem[..], p);
    }

    method PerformWrite(p: int, i: int, v: byte)
      requires Valid() && Client.Permitted(View(), Client.Write(p, i, v))
      modifies this, arena, arena.mem
      ensures Valid() && (State(), 0) == Served(old(State()), Client.Write(p, i, v))
      ensures Client.Contract(old(View()), Client.Write(p, i, v), 0, View())
    {
      hide Heap.Valid, Wired, KeepsPayloads, Used, Client.View.Valid, LiveOf, TotalLength;
      LiveAt(Used(arena.blocks), p);
      LiveBounds(State(), arena.mem[..], p);
      Write(p, i, v);
      StateView(State(), arena.mem[..]);
    }

    /** Every operation is the step of the abstract heap and honours the client contract. */
    method Perform(c: Client.Call) returns (r: int)
      requires Valid() && Client.Permitted(View(), c) && InRange(c)
      modifies this, arena, arena.mem
      ensures Valid() && (State(), r) == Served(old(State()), c)
      ensures Client.Contract(old(View()), c, r, View())
    {
      hide Served, Heap.Valid, Wired, Used, LiveOf, Client.View.Valid, Client.Resized, Client.Allocated,
        Client.Released, TotalLength;
      match c
      case Malloc(size) => r := PerformMalloc(size);
      case Calloc(nmemb, size) => r := PerformCalloc(nmemb, size);
      case Realloc(p, size) => r := PerformRealloc(p, size);
      case Free(p) =>
        PerformFree(p);
        r := 0;
      case Write(p, i, v) =>
        PerformWrite(p, i, v);
        r := 0;
    }

    // --- statistics and self-check --------------------------------------------------

    /** alloc_stat_reset, as far as the counters modelled here go. */
    method ResetStats()
      requires Valid()
      modifies this`peakLiveRealBytes
      ensures Valid() && State() == Reset(old(State()))
    {
      hide UsedBytes, Tiles, Binned, Wired, TotalLength;
      peakLiveRealBytes := liveRealBytes;
    }

    /** alloc_stat_get's arena_used_bytes: once a block has been carved, live bytes, free
        bytes and the first padding. */
    method ArenaUsed() returns (n: int)
      requires Valid()
      ensures n == if arena.arenaCur == 0 then 0 else arena.arenaCur - arena.base
      ensures arena.arenaCur > arena.base ==>
                n == liveRealBytes + FreeBytes(arena.blocks, State().Lo(), State().Top()) + FIRST_PAD
    {
      hide Tiles, Binned, UsedBytes, FreeBytes, Wired, TotalLength;
      if arena.arenaCur > arena.base { UsedAndFree(State()); }
      n := if arena.arenaBase != 0 then arena.arenaCur - arena.arenaBase else 0;
    }

    /** check_invariant's pass over one bin. */
    method CheckBin(bin: nat, linear: seq<int>, before: int) returns (ok: bool, count: int)
      requires Valid() && bin < NUM_BINS
      requires forall x :: x in linear <==> x in FreeStarts(arena.blocks, State().Lo(), State().Top())
      requires 0 <= before && before + |arena.lists[bin]| <= MAX_NODES
      ensures ok && count == before + |arena.lists[bin]|
    {
      hide Heap.Valid, Wired, FreeStarts, TotalLength, Bin;
      ghost var list := arena.lists[bin];
      BinNodes(State(), bin);
      ghost var k := 0;
      ok, count := true, before;
      var node := arena.Follow(0, bin, k);
      while ok && node != 0
        invariant ok && k <= |list| && count == before + k
        invariant node == At(list, k) && (node == 0 <==> k == |list|) && (node != 0 ==> node in arena.blocks)
        decreases |list| - k
      {
        var size, used := arena.HeaderTag(node);
        var found := Search(linear, node);
        ok := !used && arena.heapLo <= node <= arena.heapHi && count < MAX_NODES && Bin(size) == bin && found;
        node := arena.Follow(node + 4, bin, k + 1);
        k, count := k + 1, count + 1;
      }
    }

    /** check_invariant. On every valid heap it passes, unless there are more free
        blocks than its collection array holds, or a first malloc has failed before
        any block was carved and the walk starts from a null pointer. */
    method CheckInvariant() returns (verdict: Verdict)
      requires Valid()
      ensures verdict == if arena.arenaCur == arena.base then NullRead
                         else if arena.freelistLen <= MAX_NODES then Passed
                         else Failed
    {
      hide Heap.Valid, Wired, FreeStarts, UsedBytes, Tiles;
      CheckSteps(State());
      if arena.heapLo == 0 && arena.heapLo < arena.heapHi {
        return NullRead;
      }
      var ok, linear, used := arena.LinearPass();
      if !ok {
        return Failed;
      }
      ok := used == liveRealBytes;
      var count, bin := 0, 0;
      while ok && bin < NUM_BINS
        invariant ok && 0 <= bin <= NUM_BINS
        invariant count == TotalLength(arena.lists[..bin])
      {
        LengthPrefix(arena.lists, bin);
        ok, count := CheckBin(bin, linear, count);
        bin := bin + 1;
      }
      assert arena.lists[..bin] == arena.lists;
      verdict := if ok && |linear| == count && count == arena.freelistLen then Passed else Failed;
    }
  }

  // --- list lengths ----------------------------------------------------------------

  ghost function TotalLength(lists: seq<seq<int>>): int {
    if lists == [] then 0 else |lists[0]| + TotalLength(lists[1..])
  }

  lemma {:induction false} LengthSet(lists: seq<seq<int>>, b: nat, list: seq<int>)
    requires b < |lists|
    ensures TotalLength(lists[b := list]) == TotalLength(lists) - |lists[b]| + |list|
  {
    if b == 0 {
      assert lists[b := list][1..] == lists[1..];
    } else {
      assert lists[b := list][1..] == lists[1..][b - 1 := list];
      LengthSet(lists[1..], b - 1, list);
    }
  }

  lemma LengthTakeOff(lists: seq<seq<int>>, b: nat, k: nat)
    requires b < |lists| && k < |lists[b]|
    ensures TotalLength(TakeOff(lists, b, k)) == TotalLength(lists) - 1
  {
    LengthSet(lists, b, RemoveAt(lists[b], k));
  }

  lemma LengthPutOn(lists: seq<seq<int>>, b: nat, x: int)
    requires b < |lists|
    ensures TotalLength(PutOn(lists, b, x)) == TotalLength(lists) + 1
  {
    LengthSet(lists, b, [x] + lists[b]);
  }

  lemma {:induction false} EmptyLength(n: nat)
    ensures TotalLength(Empties(n)) == 0
  {
    if n > 0 {
      EmptyLength(n - 1);
      assert Empties(n)[1..] == Empties(n - 1);
    }
  }

  ghost function Empties(n: nat): seq<seq<int>> {
    seq(n, i => [])
  }

  lemma UsedAndFree(h: Heap)
    requires h.Valid() && h.cur > h.base
    ensures h.live + FreeBytes(h.blocks, h.Lo(), h.Top()) + FIRST_PAD == h.cur - h.base
  {
    hide Binned;
    BytesConserved(h.blocks, h.Lo(), h.Top(), h.Lo());
  }

  lemma MallocSteps(h: Heap)
    requires h.Valid()
    ensures ArenaAt(h.base) && BreakAt(h.base, h.cur) && Tiles(h.blocks, h.base + FIRST_PAD, Layout.Top(h.base, h.cur))
    ensures Within(Used(h.blocks), h.blocks) && |h.bins| == NUM_BINS
    ensures forall b, k :: 0 <= b < NUM_BINS && 0 <= k < |h.bins[b]| ==>
              h.bins[b][k] in h.blocks && h.bins[b][k] !in Used(h.blocks)
  {
    forall b, k | 0 <= b < NUM_BINS && 0 <= k < |h.bins[b]|
      ensures h.bins[b][k] in h.blocks && h.bins[b][k] !in Used(h.blocks)
    {
      ListedBlock(h, b, k);
    }
  }

  /** First fit within the bin: the earliest block of that bin that is large enough,
      and the break moves only when the bin has none. */
  lemma MallocIsBinFit(h: Heap, size: int, k: nat)
    requires h.Valid() && Sane(h.Top(), size) && |h.bins| == NUM_BINS && k <= |h.bins[Bin(Need(size))]|
    requires var list := h.bins[Bin(Need(size))];
             && (forall j :: 0 <= j < k ==> list[j] in h.blocks && h.blocks[list[j]].size < Need(size))
             && (k < |list| ==> list[k] in h.blocks && h.blocks[list[k]].size >= Need(size))
    ensures SegregatedHeap.Malloc(h, size).0.Valid()
    ensures SegregatedHeap.Malloc(h, size) ==
            if k < |h.bins[Bin(Need(size))]| then Take(h, Bin(Need(size)), k, Need(size)) else Carve(h, Need(size))
  {
    hide Heap.Valid, Take, Carve, Bin, Need, Gained;
    MallocGained(h, size);
    GainedValid(h, SegregatedHeap.Malloc(h, size).0, SegregatedHeap.Malloc(h, size).1, Need(size));
    assert Fit(h.blocks, h.bins[Bin(Need(size))], Need(size), 0) == k;
  }

  lemma GainedValid(h: Heap, g: Heap, p: int, size: int)
    requires Gained(h, g, p, size)
    ensures g.Valid()
  {
  }

  lemma SingleSizeScan(h: Heap, size: int, k: nat)
    requires h.Valid() && Sane(h.Top(), size) && |h.bins| == NUM_BINS && SingleSize(Bin(Need(size)))
    requires k <= |h.bins[Bin(Need(size))]|
    requires var list := h.bins[Bin(Need(size))];
             forall j :: 0 <= j < k ==> list[j] in h.blocks && h.blocks[list[j]].size < Need(size)
    ensures k == 0
  {
    hide Heap.Valid, Bin, Need, SegregatedHeap.Malloc;
    SingleSizeHit(h, size);
  }

  lemma LiveSteps(h: Heap, a: int)
    requires h.Valid() && a in Used(h.blocks)
    ensures a in h.blocks && h.blocks[a].used && Used(h.blocks)[a] == h.blocks[a] && Listless(h.bins, a)
    ensures Within(Used(h.blocks) - {a}, h.blocks) && Within(Used(h.blocks) - {a}, h.blocks - {a})
    ensures Within(Used(h.blocks) - {a}, h.blocks[a := h.blocks[a].(used := false)] - {a})
  {
    hide Bin;
    forall b | 0 <= b < |h.bins| ensures a !in h.bins[b] {
      assert Listed(OfBin(h.blocks, b), h.bins[b]);
    }
  }

  /** What a successful malloc leaves for the steps after it. */
  lemma NewSteps(h: Heap, g: Heap, p: int, size: int)
    requires h.Valid() && |h.bins| == NUM_BINS && Requestable(h.Top(), size)
    requires (g, p) == SegregatedHeap.Malloc(h, size) && p != 0
    ensures p - 4 in g.blocks && size <= g.blocks[p - 4].size - OVERHEAD && Listless(g.bins, p - 4)
    ensures Within(Used(h.blocks), g.blocks - {p - 4}) && p > 4
  {
    hide Heap.Valid, SegregatedHeap.Malloc, Need, Used, Listless;
    MallocGained(h, size);
    LiveSteps(g, p - 4);
    LiveAddress(g, p - 4);
    assert Used(g.blocks) - {p - 4} == Used(h.blocks);
  }

  lemma LiveAddress(h: Heap, a: int)
    requires h.Valid() && a in Used(h.blocks)
    ensures a >= 16
  {
  }

  lemma OldSteps(h: Heap, g: Heap, p: int, q: int, size: int)
    requires h.Valid() && |h.bins| == NUM_BINS && Requestable(h.Top(), size) && p - 4 in Used(h.blocks)
    requires (g, q) == SegregatedHeap.Malloc(h, size) && q != 0
    ensures |g.bins| == NUM_BINS && q != p && q - 4 !in Used(h.blocks)
    ensures p - 4 in g.blocks && p - 4 in h.blocks && g.blocks[p - 4] == h.blocks[p - 4] && p - 4 in Used(g.blocks)
    ensures q - 4 in g.blocks && Used(g.blocks) == Used(h.blocks)[q - 4 := g.blocks[q - 4]]
    ensures g.blocks[q - 4].size == Need(size)
  {
    hide Heap.Valid, SegregatedHeap.Malloc, Need, Used;
    MallocGained(h, size);
    BinCount(g);
    UsedAt(h.blocks, p - 4);
    UsedAt(g.blocks, p - 4);
    UsedAt(g.blocks, q - 4);
  }

  // --- from block steps to client steps ----------------------------------------------

  lemma StateView(h: Heap, m: Bytes)
    requires h.Valid() && |m| == h.base + ARENA_SIZE
    ensures ViewOf(m, Used(h.blocks)).Valid()
  {
    hide Tiles, Binned, UsedBytes, Used;
    TilesView(m, h.base, h.Top(), h.blocks);
  }

  lemma LiveBounds(h: Heap, m: Bytes, p: int)
    requires h.Valid() && |m| == h.base + ARENA_SIZE && p - 4 in Used(h.blocks)
    ensures p - 4 in h.blocks && Used(h.blocks)[p - 4] == h.blocks[p - 4]
    ensures h.base <= p - 4 && p <= |m| && p != 0
  {
    hide Tiles, Binned, UsedBytes;
    TilesLive(h.base, h.Top(), h.blocks, p);
  }

  lemma MallocView(h: Heap, g: Heap, m: Bytes, r: Bytes, size: int, p: int)
    requires h.Valid() && |h.bins| == NUM_BINS && Requestable(h.Top(), size) && (g, p) == SegregatedHeap.Malloc(h, size)
    requires |m| == |r| == h.base + ARENA_SIZE && KeepsPayloads(m, r, Used(h.blocks))
    ensures ViewOf(r, Used(g.blocks)).Valid()
    ensures Client.Allocated(ViewOf(m, Used(h.blocks)), size, p, ViewOf(r, Used(g.blocks)))
  {
    hide Heap.Valid, KeepsPayloads, Used, Client.View.Valid, LiveOf, SegregatedHeap.Malloc, Need;
    MallocGained(h, size);
    StateView(g, r);
    AllocatedFrom(m, r, Used(h.blocks), Used(g.blocks), size, p);
  }

  lemma FreeView(h: Heap, g: Heap, m: Bytes, r: Bytes, p: int)
    requires h.Valid() && |h.bins| == NUM_BINS && g == SegregatedHeap.Free(h, p)
    requires |m| == |r| == h.base + ARENA_SIZE && KeepsPayloads(m, r, Used(h.blocks) - {p - 4})
    requires p == 0 ==> m == r
    ensures ViewOf(r, Used(g.blocks)).Valid()
    ensures p != 0 ==> Client.Released(ViewOf(m, Used(h.blocks)), p, ViewOf(r, Used(g.blocks)))
    ensures p == 0 ==> g == h && Client.OthersKept(ViewOf(m, Used(h.blocks)), ViewOf(r, Used(g.blocks)), {})
  {
    assert p == 0 ==> g == h;
    hide Heap.Valid, KeepsPayloads, Used, Client.View.Valid, LiveOf, SegregatedHeap.Free;
    FreeValid(h, p);
    StateView(g, r);
    ReleasedFrom(m, r, Used(h.blocks), p);
    KeepsAll(m, Used(h.blocks));
    if p == 0 {
      KeptAllFrom(m, r, Used(h.blocks), ViewOf(r, Used(g.blocks)));
    }
  }

  lemma ReallocView(h: Heap, g: Heap, m: Bytes, r: Bytes, p: int, size: int, q: int)
    requires h.Valid() && |h.bins| == NUM_BINS && p != 0 && p - 4 in Used(h.blocks) && 0 < size
             && Requestable(h.Top(), size)
    requires (g, q) == SegregatedHeap.Realloc(h, p, size)
    requires |m| == |r| == h.base + ARENA_SIZE && p - 4 in h.blocks && Used(h.blocks)[p - 4] == h.blocks[p - 4]
    requires KeepsPayloads(m, r, if q == 0 then Used(h.blocks) else Used(h.blocks) - {p - 4})
    requires q != 0 ==> Copied(m, r, p, q, Lesser(h.blocks[p - 4].size - OVERHEAD, size))
    ensures ViewOf(r, Used(g.blocks)).Valid() && p in ViewOf(m, Used(h.blocks)).live
    ensures Client.Resized(ViewOf(m, Used(h.blocks)), p, size, q, ViewOf(r, Used(g.blocks)))
  {
    hide Heap.Valid, KeepsPayloads, Client.View.Valid, LiveOf, SegregatedHeap.Realloc, Need, Copied, Used;
    ReallocResized(h, p, size);
    StateView(g, r);
    ResizedFrom(m, r, Used(h.blocks), Used(g.blocks), p, size, q, Lesser(h.blocks[p - 4].size - OVERHEAD, size));
  }

  // --- check_invariant ------------------------------------------------------------------

  lemma {:induction false} LengthConcat(s: seq<seq<int>>, t: seq<seq<int>>)
    ensures TotalLength(s + t) == TotalLength(s) + TotalLength(t)
  {
    if s == [] {
      assert s + t == t;
    } else {
      assert (s + t)[1..] == s[1..] + t;
      LengthConcat(s[1..], t);
    }
  }

  lemma {:induction false} LengthNonNegative(s: seq<seq<int>>)
    ensures TotalLength(s) >= 0
  {
    if s != [] { LengthNonNegative(s[1..]); }
  }

  lemma LengthPrefix(lists: seq<seq<int>>, b: nat)
    requires b < |lists|
    ensures TotalLength(lists[..b + 1]) == TotalLength(lists[..b]) + |lists[b]|
    ensures 0 <= TotalLength(lists[..b]) && TotalLength(lists[..b + 1]) <= TotalLength(lists)
  {
    assert lists[..b + 1] == lists[..b] + [lists[b]];
    LengthConcat(lists[..b], [lists[b]]);
    assert [lists[b]][1..] == [];
    assert lists == lists[..b + 1] + lists[b + 1..];
    LengthConcat(lists[..b + 1], lists[b + 1..]);
    LengthNonNegative(lists[..b]);
    LengthNonNegative(lists[b + 1..]);
  }

  function Flat(lists: seq<seq<int>>): seq<int> {
    if lists == [] then [] else lists[0] + Flat(lists[1..])
  }

  /** Lists without repetition that share nothing are, laid end to end, without repetition. */
  lemma {:induction false} FlatDistinct(lists: seq<seq<int>>)
    requires forall b :: 0 <= b < |lists| ==> Distinct(lists[b])
    requires NoShare(lists)
    ensures Distinct(Flat(lists)) && |Flat(lists)| == TotalLength(lists)
    ensures forall x :: x in Flat(lists) <==> exists b :: 0 <= b < |lists| && x in lists[b]
  {
    if lists != [] {
      var rest := lists[1..];
      assert NoShare(rest) by {
        forall b, c, x | 0 <= b < |rest| && 0 <= c < |rest| && x in rest[b] && x in rest[c] ensures b == c {
          assert x in lists[b + 1] && x in lists[c + 1];
        }
      }
      FlatDistinct(rest);
      assert lists == [lists[0]] + rest;
      forall x | x in Flat(rest) ensures x !in lists[0] && exists b :: 0 <= b < |lists| && x in lists[b] {
        var b :| 0 <= b < |rest| && x in rest[b];
        assert x in lists[b + 1];
      }
      forall b, x | 0 <= b < |lists| && x in lists[b] ensures x in Flat(lists) {
        if b > 0 { assert x in rest[b - 1]; }
      }
      assert forall i :: 0 <= i < |Flat(rest)| ==> Flat(rest)[i] in Flat(rest);
    }
  }

  lemma BinsApart(L: Blocks, bins: seq<seq<int>>)
    requires Binned(L, bins)
    ensures NoShare(bins)
    ensures forall b :: 0 <= b < |bins| ==> Distinct(bins[b])
    ensures forall x :: (exists b :: 0 <= b < |bins| && x in bins[b]) <==> x in L && !L[x].used
  {
    hide Bin;
    forall b | 0 <= b < |bins|
      ensures Distinct(bins[b])
      ensures forall x :: x in bins[b] <==> x in L && !L[x].used && Bin(L[x].size) == b
    {
      assert Listed(OfBin(L, b), bins[b]);
      forall x ensures x in bins[b] <==> x in L && !L[x].used && Bin(L[x].size) == b {
        assert x in OfBin(L, b) <==> x in L && Bin(L[x].size) == b;
      }
    }
    forall x | x in L && !L[x].used ensures exists b :: 0 <= b < |bins| && x in bins[b] {
      assert x in bins[Bin(L[x].size)];
    }
  }

  /** The walk by address and the bins together meet the same blocks. */
  lemma CheckSteps(h: Heap)
    requires h.Valid()
    ensures |h.bins| == NUM_BINS
    ensures |FreeStarts(h.blocks, h.Lo(), h.Top())| == TotalLength(h.bins)
    ensures h.live == UsedBytes(h.blocks, h.Lo(), h.Top())
    ensures ArenaAt(h.base) && BreakAt(h.base, h.cur) && Tiles(h.blocks, h.Lo(), h.Top())
    ensures h.base > 0 && (h.cur == 0 || h.cur == h.base || h.cur > h.Lo())
  {
    var all := FreeStarts(h.blocks, h.Lo(), h.Top());
    FreeStartsAll(h.blocks, h.Lo(), h.Top(), h.Lo());
    hide FreeStarts, TotalLength, Binned, Flat;
    BinsApart(h.blocks, h.bins);
    FlatDistinct(h.bins);
    SameMembers(h.blocks, all, h.bins, h.Lo());
    DistinctWithin(all, Flat(h.bins));
    DistinctWithin(Flat(h.bins), all);
  }

  lemma SameMembers(L: Blocks, all: seq<int>, bins: seq<seq<int>>, lo: int)
    requires forall x :: x in all <==> x in L && !L[x].used && lo <= x
    requires forall a :: a in L ==> lo <= a
    requires forall x :: x in Flat(bins) <==> exists b :: 0 <= b < |bins| && x in bins[b]
    requires forall x :: (exists b :: 0 <= b < |bins| && x in bins[b]) <==> x in L && !L[x].used
    ensures forall x :: x in all <==> x in Flat(bins)
  {
  }

  lemma BinNodes(h: Heap, b: nat)
    requires h.Valid() && b < NUM_BINS
    ensures |h.bins| == NUM_BINS
    ensures forall k :: 0 <= k < |h.bins[b]| ==>
              && h.bins[b][k] in h.blocks && !h.blocks[h.bins[b][k]].used && Bin(h.blocks[h.bins[b][k]].size) == b
              && h.Lo() <= h.bins[b][k] < h.cur && h.cur > h.base
              && h.bins[b][k] in FreeStarts(h.blocks, h.Lo(), h.Top())
  {
    FreeStartsAll(h.blocks, h.Lo(), h.Top(), h.Lo());
    hide FreeStarts, Bin;
    forall k | 0 <= k < |h.bins[b]|
      ensures h.bins[b][k] in h.blocks && !h.blocks[h.bins[b][k]].used && Bin(h.blocks[h.bins[b][k]].size) == b
    {
      ListedBlock(h, b, k);
    }
  }
}
