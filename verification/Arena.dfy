/** The machinery both allocators are built on: the arena and its break, boundary
    tags, and free lists threaded through free blocks.

    src/allocator.c and src/segregated_allocator.c each carry their own copy of
    these routines; the first has one free list, the second one per size bin.
 */
module Arenas {
  import opened Memory
  import opened Layout
  import opened Format
  import opened FreeLists

  const MAX_NODES: int := 500000

  /** How check_invariant ends: all assertions hold, one fails, or it reads address 0. */
  datatype Verdict = Passed | Failed | NullRead

  class Arena {
    const base: int          // the address the reservation is given
    const mem: array<byte>   // process memory; the arena is [base, base + ARENA_SIZE)

    var heads: seq<int>      // free_head, one cell per list
    var heapLo: int
    var heapHi: int
    var arenaBase: int
    var arenaCur: int
    var arenaEnd: int
    var freelistLen: int

    ghost var blocks: Blocks
    ghost var lists: seq<seq<int>>

    /** Memory and heads agree with the ghost view. */
    ghost predicate Sound()
      reads this, mem
    {
      && ArenaAt(base) && mem.Length == base + ARENA_SIZE
      && |heads| == |lists|
      && Wired(mem[..], base, blocks, heads, lists)
    }

    ghost predicate Statics()
      reads this
    {
      && heapHi == arenaCur
      && heapLo == (if arenaCur > base then base + FIRST_PAD else 0)
      && arenaBase == (if arenaCur == 0 then 0 else base)
      && (arenaBase != 0 ==> arenaEnd == base + ARENA_SIZE)
    }

    constructor (base: int, bins: nat)
      requires ArenaAt(base)
      ensures Sound() && Statics() && fresh(mem)
      ensures this.base == base && blocks == map[] && arenaCur == 0 && freelistLen == 0
      ensures |heads| == bins && lists == seq(bins, i => [])
    {
      this.base := base;
      mem := new byte[base + ARENA_SIZE];
      heads := seq(bins, i => 0);
      heapLo, heapHi := 0, 0;
      arenaBase, arenaCur, arenaEnd := 0, 0, 0;
      freelistLen := 0;
      blocks, lists := map[], seq(bins, i => []);
    }

    /** set_tags on a block that overlaps no other. */
    method SetTags(header: int, tag: int, ghost size: int, ghost flag: bool, ghost keep: Blocks)
      requires Sound() && base <= header && MIN_BLOCK <= size < TAG_LIMIT - 1 && header + size <= mem.Length
      requires tag == Tag(size, flag) && size % 16 == 0
      requires Ready(blocks[header := Block(size, flag, flag)], mem.Length, keep)
      modifies mem, this`blocks
      ensures blocks == old(blocks)[header := Block(size, flag, flag)]
      ensures mem[..] == Format.SetTags(old(mem[..]), header, size, flag)
      ensures Sound()
      ensures KeepsPayloads(old(mem[..]), mem[..], keep)
    {
      hide Wired, KeepsPayloads, Ready;
      SetTagsWired(mem[..], base, blocks, heads, lists, header, size, flag, keep);
      WriteTags(mem, header, tag, size, flag);
      blocks := blocks[header := Block(size, flag, flag)];
    }

    /** `*header = *header & ~1u`. */
    method ClearUsed(header: int, ghost keep: Blocks)
      requires Sound() && header in blocks && Within(keep, blocks)
      modifies mem, this`blocks
      ensures blocks == old(blocks)[header := old(blocks)[header].(used := false)]
      ensures Sound()
      ensures KeepsPayloads(old(mem[..]), mem[..], keep)
    {
      hide Wired, KeepsPayloads, Within;
      var size, used := HeaderTag(header);
      ClearWired(mem[..], base, blocks, heads, lists, header, keep);
      StoreWord(mem, header, WORD_TAG, size);
      blocks := blocks[header := blocks[header].(used := false)];
    }

    /** `*header`, taken apart. */
    method HeaderTag(header: int) returns (size: int, used: bool)
      requires Sound() && header in blocks
      ensures size == blocks[header].size && used == blocks[header].used
    {
      assert TagsAt(mem[..], header, blocks[header]) && blocks[header].Shaped();
      TagParts(blocks[header].size, blocks[header].used);
      var tag := LoadWord(mem, header, WORD_TAG);
      size, used := TagSize(tag), TagFlag(tag);
    }

    /** The footer word just below header, taken apart: it belongs to the block on the left. */
    method LeftFooterTag(header: int, ghost left: int) returns (size: int, used: bool)
      requires Sound() && left in blocks && Next(blocks, left) == header
      ensures size == blocks[left].size && used == blocks[left].foot
    {
      assert TagsAt(mem[..], left, blocks[left]) && blocks[left].Shaped();
      TagParts(blocks[left].size, blocks[left].foot);
      var tag := LoadWord(mem, header - 4, WORD_TAG);
      size, used := TagSize(tag), TagFlag(tag);
    }

    /** freelist_push. */
    method Push(header: int, bin: nat, ghost keep: Blocks)
      requires Sound() && bin < |lists| && header in blocks && Listless(lists, header)
      requires Within(keep, blocks - {header})
      modifies mem, this`heads, this`lists, this`freelistLen
      ensures lists == PutOn(old(lists), bin, header)
      ensures freelistLen == old(freelistLen) + 1
      ensures 0 <= header && header + 12 <= mem.Length && old(heads)[bin] >= 0
      ensures mem[..] == Store(old(mem[..]), header + 4, WORD_LINK, old(heads)[bin])
      ensures Sound()
      ensures KeepsPayloads(old(mem[..]), mem[..], keep)
    {
      hide Wired, KeepsPayloads, Within, Listless;
      PushWired(mem[..], base, blocks, heads, lists, bin, header, keep);
      StoreWord(mem, header + 4, WORD_LINK, heads[bin]);
      heads := heads[bin := header];
      lists := PutOn(lists, bin, header);
      freelistLen := freelistLen + 1;
    }

    /** link is the cell that leads to the k-th block of a list: the address of a
        link word or, as 0, that of the list head. */
    ghost predicate LinkCell(link: int, bin: nat, k: nat)
      requires bin < |lists| && k <= |lists[bin]|
      reads this
    {
      link == if k == 0 then 0 else lists[bin][k - 1] + 4
    }

    /** `*link`. */
    method Follow(link: int, bin: nat, ghost k: nat) returns (node: int)
      requires Sound() && bin < |lists| && k <= |lists[bin]| && LinkCell(link, bin, k)
      ensures node == At(lists[bin], k)
      ensures node == 0 <==> k == |lists[bin]|
      ensures node != 0 ==> node in blocks
    {
      ghost var free := lists[bin];
      assert Chained(mem[..], blocks, heads[bin], free);
      if k < |free| {
        assert free[k] in blocks;
      }
      if link == 0 {
        node := heads[bin];
      } else {
        assert free[k - 1] in blocks && blocks[free[k - 1]].Shaped();
        node := LoadWord(mem, link, WORD_LINK);
        assert LinkedOn(mem[..], free, k - 1);
      }
    }

    /** malloc's scan: the first block of a list, in link order, of at least `need`
        bytes, with the cell that leads to it; node is 0 if there is none. */
    method FindFit(bin: nat, need: int) returns (link: int, node: int, chunk: int, steps: nat, ghost k: nat)
      requires Sound() && bin < |lists|
      ensures k <= |lists[bin]| && LinkCell(link, bin, k)
      ensures forall j :: 0 <= j < k ==> lists[bin][j] in blocks && blocks[lists[bin][j]].size < need
      ensures node == 0 <==> k == |lists[bin]|
      ensures node != 0 ==> node == lists[bin][k] && node in blocks && chunk == blocks[node].size >= need
      ensures steps == if node == 0 then k else k + 1
    {
      hide Wired;
      link, chunk, steps, k := 0, 0, 0, 0;
      node := Follow(link, bin, k);
      while node != 0
        invariant k <= |lists[bin]| && LinkCell(link, bin, k) && steps == k
        invariant node == At(lists[bin], k) && (node == 0 <==> k == |lists[bin]|) && (node != 0 ==> node in blocks)
        invariant forall j :: 0 <= j < k ==> lists[bin][j] in blocks && blocks[lists[bin][j]].size < need
        decreases |lists[bin]| - k
      {
        var used;
        steps := steps + 1;
        chunk, used := HeaderTag(node);
        if chunk >= need {
          return;
        }
        link := node + 4;
        k := k + 1;
        node := Follow(link, bin, k);
      }
    }

    /** freelist_remove's scan: the place of `header` on a list; node is 0 if it is not there. */
    method FindNode(bin: nat, header: int) returns (link: int, node: int, steps: nat, ghost k: nat)
      requires Sound() && bin < |lists|
      ensures k <= |lists[bin]| && LinkCell(link, bin, k)
      ensures forall j :: 0 <= j < k ==> lists[bin][j] != header
      ensures node == 0 <==> k == |lists[bin]|
      ensures node != 0 ==> node == header == lists[bin][k]
      ensures steps == if node == 0 then k else k + 1
    {
      hide Wired;
      link, steps, k := 0, 0, 0;
      node := Follow(link, bin, k);
      while node != 0
        invariant k <= |lists[bin]| && LinkCell(link, bin, k) && steps == k
        invariant node == At(lists[bin], k) && (node == 0 <==> k == |lists[bin]|)
        invariant forall j :: 0 <= j < k ==> lists[bin][j] != header
        decreases |lists[bin]| - k
      {
        steps := steps + 1;
        if node == header {
          return;
        }
        link := node + 4;
        k := k + 1;
        node := Follow(link, bin, k);
      }
    }

    /** `*link = *(void**)(node + 4)`: take the k-th block off a list. */
    method Unlink(link: int, node: int, bin: nat, ghost k: nat, ghost keep: Blocks)
      requires Sound() && bin < |lists| && k < |lists[bin]| && LinkCell(link, bin, k) && node == lists[bin][k]
      requires Within(keep, blocks) && (k > 0 ==> lists[bin][k - 1] !in keep)
      modifies mem, this`heads, this`lists, this`freelistLen
      ensures lists == TakeOff(old(lists), bin, k)
      ensures freelistLen == old(freelistLen) - 1
      ensures Sound()
      ensures KeepsPayloads(old(mem[..]), mem[..], keep)
    {
      hide Wired, KeepsPayloads, Within;
      var next := Follow(node + 4, bin, k + 1);
      if k > 0 { WiredBlock(mem[..], base, blocks, heads, lists, bin, k - 1); }
      if link == 0 {
        UnlinkFirstWired(mem[..], base, blocks, heads, lists, bin);
        KeepsAll(mem[..], keep);
        heads := heads[bin := next];
      } else {
        UnlinkLaterWired(mem[..], base, blocks, heads, lists, bin, k, keep);
        StoreWord(mem, link, WORD_LINK, next);
      }
      lists := TakeOff(lists, bin, k);
      freelistLen := freelistLen - 1;
    }

    /** The blocks tile the carved part of the arena. */
    ghost predicate Tiled()
      reads this
    {
      BreakAt(base, arenaCur) && Tiles(blocks, base + FIRST_PAD, Top(base, arenaCur))
    }

    /** malloc's split branch: tag the front used and the rest free, unlink the
        block, list the rest. */
    method TakeSplit(link: int, node: int, chunk: int, need: int, bin: nat, restBin: nat,
                     ghost k: nat, ghost keep: Blocks)
      requires Sound() && Tiled() && bin < |lists| && restBin < |lists|
      requires k < |lists[bin]| && LinkCell(link, bin, k) && node == lists[bin][k]
      requires node in blocks && chunk == blocks[node].size >= need + MIN_BLOCK
      requires need >= MIN_BLOCK && need % 16 == 0
      requires Within(keep, blocks) && node !in keep && (k > 0 ==> lists[bin][k - 1] !in keep)
      modifies mem, this`heads, this`lists, this`freelistLen, this`blocks
      ensures blocks == Placed(old(blocks), node, need)
      ensures lists == PutOn(TakeOff(old(lists), bin, k), restBin, node + need)
      ensures freelistLen == old(freelistLen)
      ensures Sound()
      ensures KeepsPayloads(old(mem[..]), mem[..], keep)
    {
      hide Wired, KeepsPayloads, Within, Ready, Tiles, Listless, Format.SetTags, Store;
      ghost var m := mem[..];
      SplitSteps(m, base, arenaCur, blocks, node, need, keep);
      OutsideListless(m, base, blocks, heads, lists, bin, k, node + need);
      SetTags(node, need + 1, need, true, keep);
      ghost var m1 := mem[..];
      SetTags(node + need, chunk - need, chunk - need, false, keep);
      ghost var m2 := mem[..];
      KeepsTrans(m, m1, m2, keep);
      Unlink(link, node, bin, k, keep);
      ghost var m3 := mem[..];
      KeepsTrans(m, m2, m3, keep);
      Push(node + need, restBin, keep);
      KeepsTrans(m, m3, mem[..], keep);
    }

    /** malloc's whole-block branch. */
    method TakeWhole(link: int, node: int, chunk: int, bin: nat, ghost k: nat, ghost keep: Blocks)
      requires Sound() && Tiled() && bin < |lists|
      requires k < |lists[bin]| && LinkCell(link, bin, k) && node == lists[bin][k]
      requires node in blocks && chunk == blocks[node].size
      requires Within(keep, blocks) && node !in keep && (k > 0 ==> lists[bin][k - 1] !in keep)
      modifies mem, this`heads, this`lists, this`freelistLen, this`blocks
      ensures blocks == old(blocks)[node := Block(chunk, true, true)]
      ensures lists == TakeOff(old(lists), bin, k)
      ensures freelistLen == old(freelistLen) - 1
      ensures Sound()
      ensures KeepsPayloads(old(mem[..]), mem[..], keep)
    {
      hide Wired, KeepsPayloads, Within, Ready, Tiles, Format.SetTags;
      ghost var m := mem[..];
      RetagSteps(m, base, arenaCur, blocks, node, Block(chunk, true, true), keep);
      SetTags(node, chunk + 1, chunk, true, keep);
      ghost var m1 := mem[..];
      Unlink(link, node, bin, k, keep);
      KeepsTrans(m, m1, mem[..], keep);
    }

    /** The reservation has not been made, or its bounds and the break are set. */
    ghost predicate Reserved()
      reads this
    {
      && ArenaAt(base)
      && (arenaBase != 0 ==> arenaBase == base && arenaEnd == base + ARENA_SIZE && 0 <= arenaCur <= arenaEnd)
    }

    /** The break; the base before the reservation. */
    ghost function Break(): int
      reads this
    {
      if arenaBase == 0 then base else arenaCur
    }

    /** arena_extend: move the break up n bytes and return where it was, or -1. The
        address sum is taken modulo 2^64, so a sum that wraps passes the bounds test and
        moves the break down. */
    method Extend(n: int) returns (p: int)
      requires Reserved() && 0 <= n < SIZE_LIMIT
      modifies this`arenaBase, this`arenaCur, this`arenaEnd
      ensures Reserved() && arenaBase == base
      ensures var c := old(Break());
              if base + ARENA_SIZE < c + n < SIZE_LIMIT then p == -1 && arenaCur == c
              else p == c && arenaCur == (c + n) % SIZE_LIMIT
    {
      if arenaBase == 0 {
        arenaBase, arenaCur := base, base;
        arenaEnd := arenaBase + ARENA_SIZE;
      }
      p := arenaCur;
      if n == 0 { return; }
      if (arenaCur + n) % SIZE_LIMIT > arenaEnd {
        p := -1;
        return;
      }
      arenaCur := (arenaCur + n) % SIZE_LIMIT;
    }

    /** malloc's three calls of arena_extend: where the break was, the padding a header
        there needs, and the new break. */
    method Grow(need: int) returns (at: int, pad: int)
      requires Reserved() && 0 <= need <= SIZE_LIMIT - 16
      modifies this`arenaBase, this`arenaCur, this`arenaEnd, this`heapHi
      ensures Reserved() && arenaBase == base && heapHi == arenaCur
      ensures var c := old(Break());
              && pad == (12 - c) % 16
              && if base + ARENA_SIZE < c + need + pad < SIZE_LIMIT then at == -1 && arenaCur == c
                 else at == c && arenaCur == (c + need + pad) % SIZE_LIMIT
    {
      var cur := Extend(0);
      pad := (12 - cur) % 16;
      StillBreak(arenaCur);
      at := Extend(need + pad);
      StillBreak(arenaCur);
      heapHi := Extend(0);
    }

    /** malloc's last resort: carve a block at the break. */
    method Carve(need: int) returns (p: int)
      requires Sound() && Tiled() && Statics()
      requires need >= MIN_BLOCK && need % 16 == 0 && Top(base, arenaCur) + need < SIZE_LIMIT
      modifies mem, this`arenaBase, this`arenaCur, this`arenaEnd, this`heapLo, this`heapHi, this`blocks
      ensures Sound() && Tiled() && Statics()
      ensures var top := Top(base, old(arenaCur));
              if top + need > base + ARENA_SIZE then
                && p == 0 && blocks == old(blocks)
                && arenaCur == (if old(arenaCur) == 0 then base else old(arenaCur))
              else
                && p == top + 4 && blocks == old(blocks)[top := Block(need, true, true)]
                && arenaCur == top + need
      ensures KeepsPayloads(old(mem[..]), mem[..], old(blocks))
    {
      hide Wired, KeepsPayloads, Ready, Tiles, Within, Format.SetTags;
      ghost var m, L, top := mem[..], blocks, Top(base, arenaCur);
      CarveSteps(m, base, arenaCur, blocks, need);
      KeepsAll(m, L);
      var at, pad := Grow(need);
      assert top == old(Break()) + pad;
      if at == -1 {
        return 0;
      }
      var header := at + pad;
      SetTags(header, need + 1, need, true, L);
      if heapLo == 0 {
        heapLo := header;
      }
      p := header + 4;
    }

    // --- sizes whose arithmetic wraps ----------------------------------------------

    /** set_tags whatever the tag; the flag tells of a store outside the reservation. */
    method SetRawTags(header: int, tag: int) returns (outside: bool)
      requires 4 <= header && header + WORD_TAG <= mem.Length && 0 <= tag
      modifies mem
      ensures outside == (header < base || header + TagSize(tag) - 4 < base || header + TagSize(tag) > mem.Length)
      ensures mem[..] == RawTags(old(mem[..]), header, tag)
    {
      hide Store;
      StoreWord(mem, header, WORD_TAG, tag);
      var footer := header + TagSize(tag) - 4;
      outside := header < base || footer < base || footer + WORD_TAG > mem.Length;
      if footer + WORD_TAG <= mem.Length {
        StoreWord(mem, footer, WORD_TAG, tag);
      }
    }

    /** malloc's scan when the rounded size is 0 or the address sum wraps, with the code's
        own 64-bit comparisons. */
    method ScanWrapped(bin: nat, need: int) returns (node: int, chunk: int)
      requires Sound() && Tiled() && bin < |lists|
      requires WrapsAt(base, arenaCur, need)
      ensures var head := At(lists[bin], 0);
              && node == (if TakesHead(need) then head else 0)
              && (node != 0 ==> node in blocks && chunk == blocks[node].size)
    {
      hide Wired, Tiles;
      ghost var free := lists[bin];
      ghost var k := 0;
      WrapsLarge(base, arenaCur, need);
      chunk := 0;
      node := Follow(0, bin, k);
      while node != 0
        invariant k <= |free| && node == At(free, k) && (node == 0 <==> k == |free|) && (node != 0 ==> node in blocks)
        invariant TakesHead(need) ==> k == 0
        decreases |free| - k
      {
        var used;
        BlockInside(blocks, base + FIRST_PAD, Top(base, arenaCur), node);
        chunk, used := HeaderTag(node);
        if chunk >= (need + 16) % SIZE_LIMIT || chunk >= need {
          return;
        }
        k := k + 1;
        node := Follow(node + 4, bin, k);
      }
    }

    /** malloc when the rounded size is 0 or the address sum wraps: the same code, step by
        step. What it leaves is no longer a heap. `binOf` tells the list for a leftover of
        some size; `outside` tells of a tag store outside the reservation. */
    method MallocWrapped(bin: nat, need: int, binOf: int -> nat) returns (p: int, outside: bool)
      requires Sound() && Tiled() && Statics() && bin < |lists| && WrapsAt(base, arenaCur, need)
      requires forall size :: binOf(size) < |lists|
      modifies mem, this`arenaBase, this`arenaCur, this`arenaEnd, this`heapLo, this`heapHi, this`heads, this`freelistLen
      ensures var head := At(lists[bin], 0);
              var chunk := SizeOf(blocks, head);
              && p == Wrapped(base, old(arenaCur), head, chunk, need).p
              && arenaCur == Wrapped(base, old(arenaCur), head, chunk, need).cur
              && outside == Strays(base, old(arenaCur), head, need)
      ensures var head := At(lists[bin], 0);
              (head != 0 ==> InBounds(old(mem[..]), head + 4, WORD_LINK)) && |old(heads)| == |lists|
      ensures var head := At(lists[bin], 0);
              var chunk := SizeOf(blocks, head);
              var rest, next := binOf((chunk - need) % TAG_LIMIT), LinkOf(old(mem[..]), head);
              var link := if rest == bin then next else old(heads)[rest];
              && link >= 0 && mem[..] == WrappedBytes(old(mem[..]), base, old(arenaCur), head, chunk, need, link)
              && heads == (if head != 0 && TakesHead(need)
                           then old(heads)[bin := next][rest := (head + need) % SIZE_LIMIT]
                           else old(heads))
      ensures freelistLen == old(freelistLen)
    {
      hide Wired, Tiles, WrappedBytes, Wrapped, TakenBytes, RawTags, Poke, Load, BreakAt, WrapsAt, Top, Strays;
      ghost var cur, m := arenaCur, mem[..];
      ghost var head := At(lists[bin], 0);
      HeadInside(m, base, cur, blocks, heads, lists, bin);
      HeadBound(m, base, blocks, heads, lists);
      WrapsLarge(base, cur, need);
      ghost var rest := binOf((SizeOf(blocks, head) - need) % TAG_LIMIT);
      ghost var link := if rest == bin then LinkOf(m, head) else heads[rest];
      WrappedCases(m, base, cur, head, SizeOf(blocks, head), need, link);
      var node, chunk := ScanWrapped(bin, need);
      if node != 0 {
        outside := TakeWrapped(bin, binOf((chunk - need) % TAG_LIMIT), node, chunk, need);
        p := node + 4;
      } else {
        p, outside := CarveWrapped(need);
      }
    }

    method TakeWrapped(bin: nat, rest: nat, node: int, chunk: int, need: int) returns (outside: bool)
      requires bin < |heads| && rest < |heads| && TakesHead(need) && heads[rest] >= 0
      requires 16 <= chunk <= TAG_LIMIT - 16 && chunk % 16 == 0
      requires ArenaAt(base) && mem.Length == base + ARENA_SIZE
      requires Aligned(node) && base + FIRST_PAD <= node && node + chunk <= mem.Length
      modifies mem, this`heads
      ensures var next := LinkOf(old(mem[..]), node);
              && mem[..] == TakenBytes(old(mem[..]), node, chunk, need, if rest == bin then next else old(heads)[rest])
              && heads == old(heads)[bin := next][rest := (node + need) % SIZE_LIMIT]
      ensures outside == (node + need % TAG_LIMIT > mem.Length || (need != 0 && node - 16 < base))
    {
      hide Load, Store, RawTags;
      WrappedSplit(node, chunk, need);
      LinkSurvives(mem[..], node, chunk, need);
      outside := SetRawTags(node, need % TAG_LIMIT + 1);
      var split := (node + need) % SIZE_LIMIT;
      var inner := SetRawTags(split, (chunk - need) % TAG_LIMIT);
      outside := outside || inner;
      var next := LoadWord(mem, node + 4, WORD_LINK);
      heads := heads[bin := next];
      StoreWord(mem, split + 4, WORD_LINK, heads[rest]);
      heads := heads[rest := split];
    }

    method CarveWrapped(need: int) returns (p: int, outside: bool)
      requires ArenaAt(base) && mem.Length == base + ARENA_SIZE && BreakAt(base, arenaCur) && Statics()
      requires WrapsAt(base, arenaCur, need)
      modifies mem, this`arenaBase, this`arenaCur, this`arenaEnd, this`heapLo, this`heapHi
      ensures p == Top(base, old(arenaCur)) + 4 && arenaCur == (Top(base, old(arenaCur)) + need) % SIZE_LIMIT
      ensures mem[..] == RawTags(old(mem[..]), Top(base, old(arenaCur)), need % TAG_LIMIT + 1)
      ensures outside == (p - 4 + need % TAG_LIMIT > mem.Length)
    {
      hide RawTags;
      ghost var top := Top(base, arenaCur);
      WrapsLarge(base, arenaCur, need);
      var at, pad := Grow(need);
      var header := at + pad;
      assert header == top;
      p := header + 4;
      RawSize(need);
      outside := SetRawTags(header, need % TAG_LIMIT + 1);
      if heapLo == 0 {
        heapLo := header;
      }
    }

    // --- client data -------------------------------------------------------------

    /** A client store inside the payload of block a. */
    method WriteByte(a: int, i: int, v: byte, ghost keep: Blocks)
      requires Sound() && a in blocks && Listless(lists, a) && Within(keep, blocks - {a})
      requires 0 <= i < blocks[a].size - OVERHEAD
      modifies mem
      ensures Sound() && base <= a && a + blocks[a].size <= mem.Length
      ensures mem[..] == old(mem[..])[a + 4 + i := v]
      ensures KeepsPayloads(old(mem[..]), mem[..], keep)
    {
      hide Wired, KeepsPayloads, Listless, Within;
      ghost var m := mem[..];
      WiredBounds(m, base, blocks, heads, lists, a);
      mem[a + 4 + i] := v;
      PayloadWired(m, mem[..], base, blocks, heads, lists, a, keep);
    }

    /** memset of the first n payload bytes of block a to zero. */
    method ZeroPayload(a: int, n: int, ghost keep: Blocks)
      requires Sound() && a in blocks && Listless(lists, a) && Within(keep, blocks - {a})
      requires 0 <= n <= blocks[a].size - OVERHEAD
      modifies mem
      ensures Sound() && base <= a && a + blocks[a].size <= mem.Length
      ensures forall i :: a + 4 <= i < a + 4 + n ==> mem[i] == 0
      ensures KeepsPayloads(old(mem[..]), mem[..], keep)
    {
      hide Wired, KeepsPayloads, Listless, Within;
      ghost var m := mem[..];
      WiredBounds(m, base, blocks, heads, lists, a);
      ZeroBytes(mem, a + 4, n);
      PayloadWired(m, mem[..], base, blocks, heads, lists, a, keep);
    }

    /** memcpy of n payload bytes from block c to block a. */
    method CopyPayload(a: int, c: int, n: int, ghost keep: Blocks)
      requires Sound() && a in blocks && Listless(lists, a) && Within(keep, blocks - {a})
      requires c in blocks && a != c
      requires 0 <= n <= blocks[a].size - OVERHEAD && n <= blocks[c].size - OVERHEAD
      modifies mem
      ensures Sound() && base <= a && a + blocks[a].size <= mem.Length
      ensures base <= c && c + blocks[c].size <= mem.Length
      ensures Copied(old(mem[..]), mem[..], c + 4, a + 4, n)
      ensures KeepsPayloads(old(mem[..]), mem[..], keep)
    {
      hide Wired, KeepsPayloads, Listless, Within;
      ghost var m := mem[..];
      WiredBounds(m, base, blocks, heads, lists, a);
      WiredBounds(m, base, blocks, heads, lists, c);
      WiredApart(m, base, blocks, heads, lists, a, c);
      CopyBytes(mem, a + 4, c + 4, n);
      PayloadWired(m, mem[..], base, blocks, heads, lists, a, keep);
    }

    // --- check_invariant's linear pass -------------------------------------------------

    /** Every block is aligned, large enough, inside the heap and tagged alike at both
        ends; collects the free ones, as many as fit, and adds up the used ones. */
    method LinearPass() returns (ok: bool, linear: seq<int>, used: int)
      requires Sound() && Tiled() && Statics() && (heapLo != 0 || heapHi == 0)
      ensures ok <==> |FreeStarts(blocks, base + FIRST_PAD, Top(base, arenaCur))| <= MAX_NODES
      ensures ok ==> linear == FreeStarts(blocks, base + FIRST_PAD, Top(base, arenaCur))
      ensures ok ==> used == UsedBytes(blocks, base + FIRST_PAD, Top(base, arenaCur))
    {
      hide Wired, Tiles, FreeStarts, UsedBytes;
      ghost var lo, hi := base + FIRST_PAD, Top(base, arenaCur);
      ghost var all := FreeStarts(blocks, lo, hi);
      ok, linear, used := true, [], 0;
      var p := heapLo;
      LinearStart(base, arenaCur, blocks);
      while ok && p < heapHi
        invariant p == heapHi || (p in blocks && p < heapHi)
        invariant ok ==> |linear| <= MAX_NODES && linear + FreeStarts(blocks, p, hi) == all
        invariant ok ==> used + UsedBytes(blocks, p, hi) == UsedBytes(blocks, lo, hi)
        invariant !ok ==> |all| > MAX_NODES
        decreases heapHi - p, ok
      {
        LinearStep(blocks, lo, hi, p);
        var chunk, flag := HeaderTag(p);
        var foot, footFlag := LeftFooterTag(p + chunk, p);
        ok := chunk % 16 == 0 && chunk >= MIN_BLOCK && p + chunk <= heapHi && foot == chunk;
        if !flag {
          ok := ok && |linear| < MAX_NODES;
          linear := linear + [p];
        } else {
          used := used + chunk;
        }
        p := p + chunk;
      }
      if ok {
        LinearEnd(blocks, hi);
      }
    }
  }

  lemma StillBreak(c: int)
    requires 0 <= c < SIZE_LIMIT
    ensures (c + 0) % SIZE_LIMIT == c
  {
  }

  /** malloc's rounded size is 0, or the address sum at the top of the heap wraps. */
  predicate WrapsAt(base: int, cur: int, need: int) {
    0 <= need < SIZE_LIMIT && need % 16 == 0 && (need == 0 || Top(base, cur) + need >= SIZE_LIMIT)
  }

  lemma InsaneWraps(base: int, cur: int, size: int)
    requires 0 <= size < SIZE_LIMIT && !Sane(Top(base, cur), size)
    ensures WrapsAt(base, cur, Need(size))
  {
  }

  /** The rounded sizes for which the first test of the scan holds of any block. */
  predicate TakesHead(need: int) {
    need == 0 || need + 16 == SIZE_LIMIT
  }

  lemma WrapsLarge(base: int, cur: int, need: int)
    requires ArenaAt(base) && BreakAt(base, cur) && WrapsAt(base, cur, need)
    ensures need <= SIZE_LIMIT - 16 && (need == 0 || need >= USER_LIMIT)
    ensures (12 - (if cur == 0 then base else cur)) % 16 + (if cur == 0 then base else cur) == Top(base, cur)
    ensures Top(base, cur) + 4 <= base + ARENA_SIZE
  {
  }

  /** The link word of a listed block; 0 for none. */
  function LinkOf(m: Bytes, head: int): nat
    requires head != 0 ==> InBounds(m, head + 4, WORD_LINK)
  {
    if head == 0 then 0 else Load(m, head + 4, WORD_LINK)
  }

  /** Memory after malloc at such a size; `link` is what the leftover is linked to. */
  function WrappedBytes(m: Bytes, base: int, cur: int, head: int, chunk: int, need: int, link: nat): Bytes
    requires 0 <= need
  {
    if head != 0 && TakesHead(need) then TakenBytes(m, head, chunk, need, link)
    else RawTags(m, Top(base, cur), need % TAG_LIMIT + 1)
  }

  /** The two pairs of tags of malloc's split branch. */
  function TakenTags(m: Bytes, node: int, chunk: int, need: int): (r: Bytes)
    requires 0 <= need
    ensures |r| == |m|
  {
    RawTags(RawTags(m, node, need % TAG_LIMIT + 1), (node + need) % SIZE_LIMIT, (chunk - need) % TAG_LIMIT)
  }

  function TakenBytes(m: Bytes, node: int, chunk: int, need: int, link: nat): Bytes
    requires 0 <= need
  {
    Poke(TakenTags(m, node, chunk, need), (node + need) % SIZE_LIMIT + 4, WORD_LINK, link)
  }

  /** A tag is stored outside the arena: a footer past its end, or, when the leftover is
      tagged 16 bytes below the lowest block, before its base. */
  predicate Strays(base: int, cur: int, head: int, need: int) {
    if head != 0 && TakesHead(need) then
      head + need % TAG_LIMIT > base + ARENA_SIZE || (need != 0 && head - 16 < base)
    else Top(base, cur) + need % TAG_LIMIT > base + ARENA_SIZE
  }

  /** The tags do not touch the link word of the block. */
  lemma LinkSurvives(m: Bytes, node: int, chunk: int, need: int)
    requires TakesHead(need) && 16 <= chunk <= TAG_LIMIT - 16 && chunk % 16 == 0
    requires 20 <= node && node + chunk <= |m| <= USER_LIMIT
    ensures Load(TakenTags(m, node, chunk, need), node + 4, WORD_LINK) == Load(m, node + 4, WORD_LINK)
  {
    hide Load, Store, RawTags, Poke;
    WrappedSplit(node, chunk, need);
    var r := RawTags(m, node, need % TAG_LIMIT + 1);
    RawTagsOther(m, node, need % TAG_LIMIT + 1, node + 4, WORD_LINK);
    RawTagsOther(r, (node + need) % SIZE_LIMIT, (chunk - need) % TAG_LIMIT, node + 4, WORD_LINK);
  }

  lemma RawSize(need: int)
    requires 0 <= need && need % 16 == 0
    ensures TagSize(need % TAG_LIMIT + 1) == need % TAG_LIMIT
  {
    assert need % TAG_LIMIT % 16 == 0;
  }

  /** Where the leftover's tags go: over the block itself, or 16 bytes below it. */
  lemma WrappedSplit(node: int, chunk: int, need: int)
    requires TakesHead(need) && 16 <= chunk <= TAG_LIMIT - 16 && chunk % 16 == 0 && 20 <= node < USER_LIMIT
    ensures (node + need) % SIZE_LIMIT == if need == 0 then node else node - 16
    ensures (chunk - need) % TAG_LIMIT == if need == 0 then chunk else (chunk + 16) % TAG_LIMIT
    ensures TagSize(need % TAG_LIMIT + 1) == need % TAG_LIMIT
    ensures TagSize((chunk - need) % TAG_LIMIT) == (chunk - need) % TAG_LIMIT
  {
    RawSize(need);
    WholeTags(chunk, if need == 0 then 0 else 1);
    RawWhole(chunk);
    RawWhole(chunk + 16);
  }

  /** Adding 2^64 changes nothing in 32 bits. */
  lemma WholeTags(chunk: int, k: int)
    requires k == 0 || k == 1
    ensures (chunk - k * (SIZE_LIMIT - 16)) % TAG_LIMIT == (chunk + k * 16) % TAG_LIMIT
  {
    assert SIZE_LIMIT == TAG_LIMIT * TAG_LIMIT;
  }

  lemma RawWhole(x: int)
    requires x % 16 == 0
    ensures TagSize(x % TAG_LIMIT) == x % TAG_LIMIT
  {
    assert x % TAG_LIMIT % 16 == 0;
  }

  /** The header word below the pointer returned. When the rounded size is 0 and the list
      is not empty it belongs to a block that is still on the list. */
  lemma WrappedHeader(m: Bytes, base: int, cur: int, head: int, chunk: int, need: int, link: nat)
    requires ArenaAt(base) && |m| == base + ARENA_SIZE && BreakAt(base, cur) && WrapsAt(base, cur, need)
    requires head != 0 ==>
               base + FIRST_PAD <= head && head + chunk <= |m| && 16 <= chunk <= TAG_LIMIT - 16 && chunk % 16 == 0
    ensures var o := Wrapped(base, cur, head, chunk, need);
            && InBounds(m, o.p - 4, WORD_TAG)
            && |WrappedBytes(m, base, cur, head, chunk, need, link)| == |m|
            && Load(WrappedBytes(m, base, cur, head, chunk, need, link), o.p - 4, WORD_TAG)
               == Tag(o.room + OVERHEAD, !(head != 0 && need == 0))
            && TagSize(Tag(o.room + OVERHEAD, !(head != 0 && need == 0))) == o.room + OVERHEAD
  {
    hide Load, Store, RawTags, Poke;
    WrapsLarge(base, cur, need);
    RawSize(need);
    if head != 0 && TakesHead(need) {
      TakenHeader(m, head, chunk, need, link);
    } else {
      RawTagsHeader(m, Top(base, cur), need % TAG_LIMIT + 1) by { RawSize(need); }
    }
  }

  lemma TakenHeader(m: Bytes, head: int, chunk: int, need: int, link: nat)
    requires TakesHead(need) && 16 <= chunk <= TAG_LIMIT - 16 && chunk % 16 == 0
    requires 20 <= head && head + chunk <= |m| <= USER_LIMIT
    ensures |TakenBytes(m, head, chunk, need, link)| == |m|
    ensures Load(TakenBytes(m, head, chunk, need, link), head, WORD_TAG)
            == if need == 0 then chunk else need % TAG_LIMIT + 1
  {
    hide Load, Store, RawTags, Poke;
    WrappedSplit(head, chunk, need);
    var split := (head + need) % SIZE_LIMIT;
    var r1 := RawTags(m, head, need % TAG_LIMIT + 1);
    var r2 := RawTags(r1, split, (chunk - need) % TAG_LIMIT);
    if need == 0 {
      RawTagsHeader(r1, head, chunk);
    } else {
      RawTagsHeader(m, head, need % TAG_LIMIT + 1);
      RawTagsOther(r1, split, (chunk - need) % TAG_LIMIT, head, WORD_TAG);
    }
    PokeOther(r2, split + 4, WORD_LINK, link, head, WORD_TAG);
  }

  lemma WrappedCases(m: Bytes, base: int, cur: int, head: int, chunk: int, need: int, link: nat)
    requires 0 <= need
    ensures Strays(base, cur, head, need)
            == if head != 0 && TakesHead(need)
               then head + need % TAG_LIMIT > base + ARENA_SIZE || (need != 0 && head - 16 < base)
               else Top(base, cur) + need % TAG_LIMIT > base + ARENA_SIZE
    ensures WrappedBytes(m, base, cur, head, chunk, need, link)
            == if head != 0 && TakesHead(need) then TakenBytes(m, head, chunk, need, link)
               else RawTags(m, Top(base, cur), need % TAG_LIMIT + 1)
    ensures var o := Wrapped(base, cur, head, chunk, need);
            if head != 0 && TakesHead(need) then o.p == head + 4 && o.cur == cur
            else o.p == Top(base, cur) + 4 && o.cur == (Top(base, cur) + need) % SIZE_LIMIT
  {
  }

  lemma HeadBound(m: Bytes, base: int, L: Blocks, heads: seq<int>, lists: seq<seq<int>>)
    requires Wired(m, base, L, heads, lists)
    ensures forall b :: 0 <= b < |heads| ==> heads[b] >= 0
  {
    forall b | 0 <= b < |heads| ensures heads[b] >= 0 {
      LinkFits(m, L, heads[b], lists[b], 0);
    }
  }

  lemma HeadInside(m: Bytes, base: int, cur: int, L: Blocks, heads: seq<int>, lists: seq<seq<int>>, bin: nat)
    requires ArenaAt(base) && |m| == base + ARENA_SIZE && BreakAt(base, cur)
             && Tiles(L, base + FIRST_PAD, Top(base, cur))
    requires Wired(m, base, L, heads, lists) && bin < |lists|
    ensures |heads| == |lists|
    ensures var head := At(lists[bin], 0);
            head != 0 ==> head in L && Aligned(head) && base + FIRST_PAD <= head && head + L[head].size <= |m|
                          && MIN_BLOCK <= L[head].size <= TAG_LIMIT - 16 && L[head].size % 16 == 0
  {
    var head := At(lists[bin], 0);
    if head != 0 {
      WiredBlock(m, base, L, heads, lists, bin, 0);
      BlockInside(L, base + FIRST_PAD, Top(base, cur), head);
      SizeFitsTag(L, base, Top(base, cur), head);
    }
    hide Wired, Tiles;
  }

  /** The padding is 12 bytes before the first block and none after. */
  lemma Padding(base: int, cur: int)
    requires ArenaAt(base) && BreakAt(base, cur)
    ensures cur == 0 || cur == base ==> (12 - base) % 16 == FIRST_PAD
    ensures cur > base ==> (12 - cur) % 16 == 0
  {
  }

  /** The bounds test of arena_extend is right exactly when the sum does not wrap. */
  lemma ExtendTestExact(addr: int, n: int, end: int)
    requires 0 <= addr <= end < SIZE_LIMIT && 0 <= n < SIZE_LIMIT
    ensures ((addr + n) % SIZE_LIMIT > end <==> addr + n > end) <==> addr + n < SIZE_LIMIT
  {
    if addr + n >= SIZE_LIMIT {
      assert (addr + n) % SIZE_LIMIT == addr + n - SIZE_LIMIT;
    }
  }

  lemma RetagSteps(m: Bytes, base: int, cur: int, L: Blocks, a: int, b: Block, keep: Blocks)
    requires ArenaAt(base) && |m| == base + ARENA_SIZE
    requires BreakAt(base, cur) && Tiles(L, base + FIRST_PAD, Top(base, cur))
    requires a in L && b.size == L[a].size && (b.used ==> b.foot)
    requires Within(keep, L) && a !in keep
    ensures Ready(L[a := b], |m|, keep)
    ensures base <= a && a + L[a].size <= |m| && MIN_BLOCK <= L[a].size < TAG_LIMIT - 1 && L[a].size % 16 == 0
    ensures Tiles(L[a := b], base + FIRST_PAD, Top(base, cur))
  {
    assert L[a].Shaped();
    RetagTiles(L, base + FIRST_PAD, Top(base, cur), a, b);
    TilesFit(L, m, base, Top(base, cur));
    TilesFit(L[a := b], m, base, Top(base, cur));
  }

  lemma CarveSteps(m: Bytes, base: int, cur: int, L: Blocks, need: int)
    requires ArenaAt(base) && |m| == base + ARENA_SIZE
    requires BreakAt(base, cur) && Tiles(L, base + FIRST_PAD, Top(base, cur))
    requires need >= MIN_BLOCK && need % 16 == 0
    ensures var top := Top(base, cur);
            && top + need <= base + ARENA_SIZE ==>
                 && top !in L && need < TAG_LIMIT - 1 && Aligned(top + need)
                 && Ready(L[top := Block(need, true, true)], |m|, L)
                 && Tiles(L[top := Block(need, true, true)], base + FIRST_PAD, top + need)
    ensures cur == 0 || cur == base ==> (12 - base) % 16 == FIRST_PAD
    ensures cur > base ==> (12 - cur) % 16 == 0
  {
    Padding(base, cur);
    var top := Top(base, cur);
    assert Aligned(top);
    AlignedStep(top, need);
    ExtendTiles(L, base + FIRST_PAD, top, Block(need, true, true));
    if top + need <= base + ARENA_SIZE {
      TilesFit(L[top := Block(need, true, true)], m, base, top + need);
    }
  }

  /** What each step of a split needs of the next. */
  lemma SplitSteps(m: Bytes, base: int, cur: int, L: Blocks, a: int, need: int, keep: Blocks)
    requires ArenaAt(base) && |m| == base + ARENA_SIZE
    requires BreakAt(base, cur) && Tiles(L, base + FIRST_PAD, Top(base, cur))
    requires a in L && L[a].size >= need + MIN_BLOCK && need >= MIN_BLOCK && need % 16 == 0
    requires Within(keep, L) && a !in keep
    ensures var L1 := L[a := Block(need, true, true)];
            var rest := L[a].size - need;
            var L2 := L1[a + need := Block(rest, false, false)];
            && Ready(L1, |m|, keep) && Ready(L2, |m|, keep) && Within(keep, L2) && Within(keep, L2 - {a + need})
            && a + need !in L && base <= a && a + L[a].size <= |m|
            && need < TAG_LIMIT - 1 && MIN_BLOCK <= rest < TAG_LIMIT - 1 && rest % 16 == 0
  {
    hide Packed, Linked, Within, Fits;
    var front, back := Block(need, true, true), Block(L[a].size - need, false, false);
    BlockInside(L, base + FIRST_PAD, Top(base, cur), a);
    SumOf16(L[a].size, need);
    SplitTiles(L, base + FIRST_PAD, Top(base, cur), a, front, back);
    TilesFit(L, m, base, Top(base, cur));
    TilesFit(L[a := front][a + need := back], m, base, Top(base, cur));
    FrontPacked(L, a, front);
    FrontFits(L, |m|, a, front);
    KeptApart(keep, L, a, front, a + need, back);
  }

  lemma FrontFits(L: Blocks, length: int, a: int, front: Block)
    requires Fits(L, length) && a in L && front.size <= L[a].size
    ensures Fits(L[a := front], length) && a + L[a].size <= length
  {
  }

  lemma KeptApart(keep: Blocks, L: Blocks, a: int, front: Block, b: int, back: Block)
    requires Within(keep, L) && a !in keep && b !in L
    ensures Within(keep, L[a := front]) && Within(keep, L[a := front][b := back])
            && Within(keep, L[a := front][b := back] - {b})
  {
  }

  lemma LinearStart(base: int, cur: int, L: Blocks)
    requires ArenaAt(base) && BreakAt(base, cur) && Tiles(L, base + FIRST_PAD, Top(base, cur))
    ensures cur > base ==> base + FIRST_PAD in L && 0 < base + FIRST_PAD < cur
    ensures cur <= base ==>
              && FreeStarts(L, base + FIRST_PAD, Top(base, cur)) == FreeStarts(L, 0, Top(base, cur)) == []
              && UsedBytes(L, base + FIRST_PAD, Top(base, cur)) == UsedBytes(L, 0, Top(base, cur)) == 0
  {
  }

  lemma LinearStep(L: Blocks, lo: int, hi: int, p: int)
    requires Tiles(L, lo, hi) && p in L
    ensures L[p].size % 16 == 0 && L[p].size >= MIN_BLOCK && p < hi
    ensures Next(L, p) <= hi && (Next(L, p) == hi || (Next(L, p) in L && Next(L, p) < hi))
    ensures FreeStarts(L, p, hi) == (if L[p].used then [] else [p]) + FreeStarts(L, Next(L, p), hi)
    ensures UsedBytes(L, p, hi) == (if L[p].used then L[p].size else 0) + UsedBytes(L, Next(L, p), hi)
  {
    assert L[p].Shaped();
    assert Next(L, p) <= hi;
  }

  lemma LinearEnd(L: Blocks, hi: int)
    ensures FreeStarts(L, hi, hi) == [] && UsedBytes(L, hi, hi) == 0
  {
  }

  /** The inner search of check_invariant. */
  method Search(linear: seq<int>, x: int) returns (found: bool)
    ensures found <==> x in linear
  {
    found := false;
    for i := 0 to |linear|
      invariant x !in linear[..i]
    {
      if linear[i] == x {
        return true;
      }
    }
  }
}
