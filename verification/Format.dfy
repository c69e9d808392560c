/** How a layout and its free lists are written into memory.

    A block is [header tag: 4][payload][footer tag: 4]. While a block is free the
    first 8 payload bytes hold the header address of the next free block, or 0.
 */
module Format {
  import opened Memory
  import opened Layout

  type Bytes = seq<byte>

  function Tag(size: int, flag: bool): int {
    if flag then size + 1 else size
  }

  /** The size and flag parts of a tag, as `tag & ~15u` and `tag & 1` take them. */
  function TagSize(tag: int): int {
    tag / 16 * 16
  }

  predicate TagFlag(tag: int) {
    tag % 2 == 1
  }

  lemma TagParts(size: int, flag: bool)
    requires size % 16 == 0
    ensures TagSize(Tag(size, flag)) == size && TagFlag(Tag(size, flag)) == flag
  {
  }

  /** All blocks of L lie inside memory, below the 32-bit size limit. */
  ghost predicate Fits(L: Blocks, length: int) {
    && length < SIZE_LIMIT
    && forall a :: a in L ==> 0 < a && L[a].size < TAG_LIMIT && a + L[a].size <= length
  }

  ghost predicate TagsAt(m: Bytes, a: int, b: Block)
    requires 0 <= a && b.size >= MIN_BLOCK && a + b.size <= |m|
  {
    && Load(m, a, WORD_TAG) == Tag(b.size, b.used)
    && Load(m, a + b.size - 4, WORD_TAG) == Tag(b.size, b.foot)
  }

  /** A store that is undefined, and here without effect, outside memory. */
  function Poke(m: Bytes, a: int, n: nat, v: nat): (r: Bytes)
    ensures |r| == |m|
  {
    if InBounds(m, a, n) then Store(m, a, n, v) else m
  }

  /** set_tags with any tag at any place. */
  function RawTags(m: Bytes, header: int, tag: nat): (r: Bytes)
    ensures |r| == |m|
  {
    Poke(Poke(m, header, WORD_TAG, tag), header + TagSize(tag) - 4, WORD_TAG, tag)
  }

  lemma PokeOther(m: Bytes, a: int, n: nat, v: nat, b: int, k: nat)
    requires InBounds(m, b, k) && (b + k <= a || a + n <= b)
    ensures Load(Poke(m, a, n, v), b, k) == Load(m, b, k)
  {
    LoadSame(m, Poke(m, a, n, v), b, k);
  }

  lemma RawTagsHeader(m: Bytes, header: int, tag: nat)
    requires InBounds(m, header, WORD_TAG) && tag < TAG_LIMIT
    ensures Load(RawTags(m, header, tag), header, WORD_TAG) == tag
  {
    hide Load, Store, Poke;
    PokedWord(m, header, WORD_TAG, tag);
    PokeOther(Poke(m, header, WORD_TAG, tag), header + TagSize(tag) - 4, WORD_TAG, tag, header, WORD_TAG);
  }

  lemma PokedWord(m: Bytes, a: int, n: nat, v: nat)
    requires InBounds(m, a, n) && (n == WORD_TAG && v < TAG_LIMIT)
    ensures Load(Poke(m, a, n, v), a, n) == v
  {
    CapacityTag();
    LoadStored(m, a, n, v);
  }

  lemma RawTagsOther(m: Bytes, header: int, tag: nat, b: int, k: nat)
    requires InBounds(m, b, k) && (b + k <= header || header + WORD_TAG <= b)
    requires b + k <= header + TagSize(tag) - 4 || header + TagSize(tag) <= b
    ensures Load(RawTags(m, header, tag), b, k) == Load(m, b, k)
  {
    hide Load, Store, Poke;
    PokeOther(m, header, WORD_TAG, tag, b, k);
    PokeOther(Poke(m, header, WORD_TAG, tag), header + TagSize(tag) - 4, WORD_TAG, tag, b, k);
  }

  /** Every block's two tags are in memory. */
  ghost predicate Tagged(m: Bytes, L: Blocks)
    requires Packed(L) && Fits(L, |m|)
  {
    forall a :: a in L ==> TagsAt(m, a, L[a])
  }

  /** The client-visible bytes of every block of L are the same in m and r. */
  ghost predicate KeepsPayloads(m: Bytes, r: Bytes, L: Blocks)
  {
    forall a :: a in L ==> SameBytes(m, r, a + 4, L[a].size - OVERHEAD)
  }

  /** Every block of K is, at the same address, at least as long in L. */
  ghost predicate Within(K: Blocks, L: Blocks) {
    forall a :: a in K ==> a in L && K[a].size <= L[a].size
  }

  /** L can be written into memory of this length, and holds K's payloads. */
  ghost predicate Ready(L: Blocks, length: int, K: Blocks) {
    Packed(L) && Fits(L, length) && Within(K, L)
  }

  lemma KeepsWithin(m: Bytes, r: Bytes, K: Blocks, L: Blocks)
    requires KeepsPayloads(m, r, L) && Within(K, L)
    ensures KeepsPayloads(m, r, K)
  {
    forall a | a in K ensures SameBytes(m, r, a + 4, K[a].size - OVERHEAD) {
      assert SameBytes(m, r, a + 4, L[a].size - OVERHEAD);
    }
  }

  lemma KeepsAll(m: Bytes, K: Blocks)
    ensures KeepsPayloads(m, m, K)
  {
  }

  lemma KeepsTrans(m: Bytes, m1: Bytes, m2: Bytes, K: Blocks)
    requires |m| == |m1| == |m2|
    requires KeepsPayloads(m, m1, K) && KeepsPayloads(m1, m2, K)
    ensures KeepsPayloads(m, m2, K)
  {
    forall a | a in K ensures SameBytes(m, m2, a + 4, K[a].size - OVERHEAD) {
      assert SameBytes(m, m1, a + 4, K[a].size - OVERHEAD);
    }
  }

  lemma TilesFit(L: Blocks, m: Bytes, base: int, hi: int)
    requires Tiles(L, base + FIRST_PAD, hi) && hi <= base + ARENA_SIZE == |m| && ArenaAt(base)
    ensures Fits(L, |m|)
    ensures forall a :: a in L ==> base < a && L[a].size <= TAG_LIMIT - 16
  {
    forall a | a in L ensures base < a && L[a].size <= TAG_LIMIT - 16 && a + L[a].size <= |m| {
      assert Next(L, a) <= hi;
      assert L[a].Shaped();
    }
  }

  // --- set_tags --------------------------------------------------------------

  function SetTags(m: Bytes, a: int, size: int, flag: bool): (r: Bytes)
    requires 0 <= a && MIN_BLOCK <= size && a + size <= |m|
    requires Tag(size, flag) >= 0
    ensures |r| == |m|
  {
    Store(Store(m, a, WORD_TAG, Tag(size, flag)), a + size - 4, WORD_TAG, Tag(size, flag))
  }

  /** set_tags writes exactly two words: the tags read back, nothing else moves. */
  lemma SetTagsEffect(m: Bytes, a: int, size: int, flag: bool)
    requires 0 <= a && MIN_BLOCK <= size < TAG_LIMIT - 1 && a + size <= |m|
    ensures TagsAt(SetTags(m, a, size, flag), a, Block(size, flag, flag))
    ensures forall i :: 0 <= i < |m| && !(a <= i < a + 4) && !(a + size - 4 <= i < a + size) ==>
              SetTags(m, a, size, flag)[i] == m[i]
  {
    CapacityTag();
    var t := Tag(size, flag);
    var m1 := Store(m, a, WORD_TAG, t);
    LoadStored(m, a, WORD_TAG, t);
    var m2 := Store(m1, a + size - 4, WORD_TAG, t);
    LoadStored(m1, a + size - 4, WORD_TAG, t);
    LoadSame(m1, m2, a, WORD_TAG);
  }

  /** set_tags: the footer's place is computed from the tag itself. */
  method WriteTags(mem: array<byte>, header: int, tag: int, ghost size: int, ghost flag: bool)
    requires tag == Tag(size, flag) && size % 16 == 0
    requires 0 <= header && MIN_BLOCK <= size && header + size <= mem.Length
    modifies mem
    ensures mem[..] == SetTags(old(mem[..]), header, size, flag)
  {
    TagParts(size, flag);
    StoreWord(mem, header, WORD_TAG, tag);
    StoreWord(mem, header + TagSize(tag) - 4, WORD_TAG, tag);
  }

  lemma TagsStay(m: Bytes, r: Bytes, c: int, b: Block)
    requires |m| == |r| && 0 <= c && b.size >= MIN_BLOCK && c + b.size <= |m|
    requires TagsAt(m, c, b)
    requires SameBytes(m, r, c, 4) && SameBytes(m, r, c + b.size - 4, 4)
    ensures TagsAt(r, c, b)
  {
    LoadSame(m, r, c, WORD_TAG);
    LoadSame(m, r, c + b.size - 4, WORD_TAG);
  }

  lemma Disjoint(L: Blocks, a: int, c: int)
    requires Packed(L) && a in L && c in L && a != c
    ensures a + L[a].size <= c || c + L[c].size <= a
    ensures L[a].Shaped() && L[c].Shaped()
  {
  }

  /** Tagging one block leaves every other block's tags and all payloads alone. */
  lemma SetTagsFrame(m: Bytes, L: Blocks, a: int, size: int, flag: bool)
    requires Packed(L) && Fits(L, |m|)
    requires a in L && L[a] == Block(size, flag, flag)
    requires size < TAG_LIMIT - 1
    requires Tagged(m, L - {a})
    ensures Tagged(SetTags(m, a, size, flag), L)
    ensures KeepsPayloads(m, SetTags(m, a, size, flag), L)
  {
    hide SetTags, TagsAt, SameBytes;
    var r := SetTags(m, a, size, flag);
    forall c | c in L ensures TagsAt(r, c, L[c]) && SameBytes(m, r, c + 4, L[c].size - OVERHEAD) {
      if c != a { assert TagsAt(m, c, (L - {a})[c]); }
      SetTagsBeside(m, L, a, size, flag, c);
    }
  }

  lemma SetTagsBeside(m: Bytes, L: Blocks, a: int, size: int, flag: bool, c: int)
    requires Packed(L) && Fits(L, |m|)
    requires a in L && L[a] == Block(size, flag, flag) && size < TAG_LIMIT - 1
    requires c in L && (c != a ==> TagsAt(m, c, L[c]))
    ensures var r := SetTags(m, a, size, flag);
            TagsAt(r, c, L[c]) && SameBytes(m, r, c + 4, L[c].size - OVERHEAD)
  {
    var r := SetTags(m, a, size, flag);
    SetTagsEffect(m, a, size, flag);
    if c != a {
      Disjoint(L, a, c);
      TagsStay(m, r, c, L[c]);
    }
  }

  // --- the free list ---------------------------------------------------------

  function At(free: seq<int>, k: nat): int {
    if k < |free| then free[k] else 0
  }

  ghost predicate Distinct(free: seq<int>) {
    forall i, j :: 0 <= i < j < |free| ==> free[i] != free[j]
  }

  /** The link stored in the k-th block leads to the next one. */
  ghost predicate LinkedOn(m: Bytes, free: seq<int>, k: nat)
    requires k < |free| && InBounds(m, free[k] + 4, WORD_LINK)
  {
    Load(m, free[k] + 4, WORD_LINK) == At(free, k + 1)
  }

  ghost predicate Linkable(m: Bytes, free: seq<int>) {
    forall k :: 0 <= k < |free| ==> InBounds(m, free[k] + 4, WORD_LINK)
  }

  /** Memory threads the list `free`, in this order, from `head` to 0. */
  ghost predicate Chained(m: Bytes, L: Blocks, head: int, free: seq<int>)
    requires Packed(L) && Fits(L, |m|)
  {
    && (forall k :: 0 <= k < |free| ==> free[k] in L)
    && head == At(free, 0)
    && Linkable(m, free)
    && forall k {:trigger LinkedOn(m, free, k)} :: 0 <= k < |free| ==> LinkedOn(m, free, k)
  }

  /** A list stays threaded while the payloads of its blocks stay the same. */
  lemma ChainFrame(m: Bytes, r: Bytes, L: Blocks, M: Blocks, head: int, free: seq<int>)
    requires |m| == |r| && Packed(L) && Fits(L, |m|) && Packed(M) && Fits(M, |r|)
    requires Chained(m, L, head, free)
    requires forall k :: 0 <= k < |free| ==>
               free[k] in M && SameBytes(m, r, free[k] + 4, M[free[k]].size - OVERHEAD)
    ensures Chained(r, M, head, free)
  {
    assert Linkable(r, free);
    forall k | 0 <= k < |free| ensures LinkedOn(r, free, k) {
      assert M[free[k]].Shaped();
      assert LinkedOn(m, free, k);
      LoadSame(m, r, free[k] + 4, WORD_LINK);
    }
  }

  lemma ChainDrop(m: Bytes, L: Blocks, head: int, free: seq<int>, x: int)
    requires Packed(L) && Fits(L, |m|) && Chained(m, L, head, free) && x !in free
    ensures Chained(m, L - {x}, head, free)
  {
    forall k | 0 <= k < |free| ensures LinkedOn(m, free, k) {
      assert free[k] in L;
    }
  }

  /** Writing the link of block x touches no tag and no other block's payload. */
  lemma LinkFrame(m: Bytes, L: Blocks, x: int, v: int)
    requires Packed(L) && Fits(L, |m|) && Tagged(m, L)
    requires x in L && v >= 0
    ensures Tagged(Store(m, x + 4, WORD_LINK, v), L)
    ensures KeepsPayloads(m, Store(m, x + 4, WORD_LINK, v), L - {x})
  {
    var r := Store(m, x + 4, WORD_LINK, v);
    forall c | c in L ensures TagsAt(r, c, L[c]) {
      assert TagsAt(m, c, L[c]);
      if c != x {
        Disjoint(L, x, c);
      }
      TagsStay(m, r, c, L[c]);
    }
    forall c | c in L - {x} ensures SameBytes(m, r, c + 4, L[c].size - OVERHEAD) {
      Disjoint(L, x, c);
    }
  }

  lemma LinkFits(m: Bytes, L: Blocks, head: int, free: seq<int>, k: nat)
    requires Packed(L) && Fits(L, |m|) && Chained(m, L, head, free)
    ensures 0 <= At(free, k) < Capacity(WORD_LINK)
  {
    CapacityLink();
    if k < |free| {
      assert free[k] in L && L[free[k]].Shaped();
    }
  }

  /** freelist_push threads x in front. */
  lemma PushChained(m: Bytes, L: Blocks, head: int, free: seq<int>, x: int)
    requires Packed(L) && Fits(L, |m|) && Chained(m, L, head, free)
    requires x in L && x !in free
    ensures head >= 0
    ensures Chained(Store(m, x + 4, WORD_LINK, head), L, x, [x] + free)
  {
    hide Packed, Fits, Load, LinkedOn;
    LinkFits(m, L, head, free, 0);
    LinkInside(m, L, x);
    var r := Store(m, x + 4, WORD_LINK, head);
    var longer := [x] + free;
    assert Linkable(r, longer);
    forall k | 0 <= k < |longer| ensures LinkedOn(r, longer, k) {
      PushLinked(m, L, head, free, x, k);
    }
  }

  lemma LinkInside(m: Bytes, L: Blocks, x: int)
    requires Packed(L) && Fits(L, |m|) && x in L
    ensures InBounds(m, x + 4, WORD_LINK)
  {
    assert L[x].Shaped();
  }

  lemma PushLinked(m: Bytes, L: Blocks, head: int, free: seq<int>, x: int, k: nat)
    requires Packed(L) && Fits(L, |m|) && Chained(m, L, head, free)
    requires x in L && x !in free && head >= 0 && k <= |free| && InBounds(m, x + 4, WORD_LINK)
    requires Linkable(Store(m, x + 4, WORD_LINK, head), [x] + free)
    ensures LinkedOn(Store(m, x + 4, WORD_LINK, head), [x] + free, k)
  {
    hide Load, Store;
    LinkFits(m, L, head, free, 0);
    if k == 0 {
      LoadStored(m, x + 4, WORD_LINK, head);
    } else {
      LinkKept(m, L, head, free, x, head, k - 1);
    }
  }

  function RemoveAt(free: seq<int>, k: nat): (r: seq<int>)
    requires k < |free|
    ensures |r| == |free| - 1
  {
    seq(|free| - 1, i requires 0 <= i < |free| - 1 => if i < k then free[i] else free[i + 1])
  }

  lemma AtShorter(free: seq<int>, k: nat, i: nat)
    requires k < |free|
    ensures At(RemoveAt(free, k), i) == At(free, if i < k then i else i + 1)
  {
  }

  /** Unlinking the first node needs no store. */
  lemma UnlinkFirst(m: Bytes, L: Blocks, head: int, free: seq<int>)
    requires Packed(L) && Fits(L, |m|) && Chained(m, L, head, free)
    requires |free| > 0
    ensures Chained(m, L, At(free, 1), RemoveAt(free, 0))
  {
    hide Packed, Fits, Load;
    var shorter := RemoveAt(free, 0);
    assert forall k :: 0 <= k < |shorter| ==> shorter[k] == free[k + 1];
    assert Linkable(m, shorter);
    forall k | 0 <= k < |shorter| ensures LinkedOn(m, shorter, k) {
      assert LinkedOn(m, free, k + 1);
      AtShorter(free, 0, k + 1);
    }
  }

  /** Unlinking a later node stores its successor in its predecessor's link. */
  lemma UnlinkLater(m: Bytes, L: Blocks, head: int, free: seq<int>, k: nat)
    requires Packed(L) && Fits(L, |m|) && Chained(m, L, head, free)
    requires Distinct(free) && 0 < k < |free|
    ensures At(free, k + 1) >= 0
    ensures Chained(Store(m, free[k - 1] + 4, WORD_LINK, At(free, k + 1)), L, head, RemoveAt(free, k))
  {
    hide LinkedOn, Rethreaded, Packed, Fits, Store, Load;
    LinkFits(m, L, head, free, k + 1);
    assert InBounds(m, free[k - 1] + 4, WORD_LINK);
    var r := Store(m, free[k - 1] + 4, WORD_LINK, At(free, k + 1));
    forall j | 0 <= j < |free| ensures Rethreaded(r, free, k, j) {
      LinkRethreaded(m, L, head, free, k, j);
    }
    Shortened(r, free, k);
  }

  lemma LinkRethreaded(m: Bytes, L: Blocks, head: int, free: seq<int>, k: nat, j: nat)
    requires Packed(L) && Fits(L, |m|) && Chained(m, L, head, free)
    requires Distinct(free) && 0 < k < |free| && j < |free| && At(free, k + 1) >= 0
    ensures Rethreaded(Store(m, free[k - 1] + 4, WORD_LINK, At(free, k + 1)), free, k, j)
  {
    LinkFits(m, L, head, free, k + 1);
    var x, v := free[k - 1], At(free, k + 1);
    if j == k - 1 {
      LoadStored(m, x + 4, WORD_LINK, v);
    } else {
      LinkKept(m, L, head, free, x, v, j);
    }
    hide Packed, Fits, Chained, Store, Load;
  }

  lemma Shortened(m: Bytes, free: seq<int>, k: nat)
    requires k < |free|
    requires forall j {:trigger Rethreaded(m, free, k, j)} :: 0 <= j < |free| ==> Rethreaded(m, free, k, j)
    ensures Linkable(m, RemoveAt(free, k))
    ensures forall i {:trigger LinkedOn(m, RemoveAt(free, k), i)} ::
              0 <= i < |free| - 1 ==> LinkedOn(m, RemoveAt(free, k), i)
  {
    forall i | 0 <= i < |free| - 1
      ensures InBounds(m, RemoveAt(free, k)[i] + 4, WORD_LINK) && LinkedOn(m, RemoveAt(free, k), i)
    {
      assert Rethreaded(m, free, k, if i < k then i else i + 1);
      AtShorter(free, k, i + 1);
    }
  }

  /** The j-th link leads on along the list without its k-th element. */
  ghost predicate Rethreaded(m: Bytes, free: seq<int>, k: nat, j: nat) {
    && j < |free| && InBounds(m, free[j] + 4, WORD_LINK)
    && Load(m, free[j] + 4, WORD_LINK) == At(free, if j + 1 == k then k + 1 else j + 1)
  }

  lemma LinkKept(m: Bytes, L: Blocks, head: int, free: seq<int>, x: int, v: int, j: nat)
    requires Packed(L) && Fits(L, |m|) && Chained(m, L, head, free)
    requires x in L && v >= 0 && j < |free| && free[j] != x
    ensures Load(Store(m, x + 4, WORD_LINK, v), free[j] + 4, WORD_LINK) == At(free, j + 1)
  {
    Disjoint(L, x, free[j]);
    LoadSame(m, Store(m, x + 4, WORD_LINK, v), free[j] + 4, WORD_LINK);
    assert LinkedOn(m, free, j);
  }

  /** The list b with x pushed in front, and with its k-th element removed. */
  function PutOn(lists: seq<seq<int>>, b: nat, x: int): seq<seq<int>>
    requires b < |lists|
  {
    lists[b := [x] + lists[b]]
  }

  function TakeOff(lists: seq<seq<int>>, b: nat, k: nat): (r: seq<seq<int>>)
    requires b < |lists| && k < |lists[b]|
    ensures |r| == |lists|
  {
    lists[b := RemoveAt(lists[b], k)]
  }

  // --- tags and all lists together -------------------------------------------

  /** Memory holds the tags of L and threads each of the lists, which share no
      block. The first-fit allocator has one list, the segregated one has 11. */
  ghost predicate Wired(m: Bytes, base: int, L: Blocks, heads: seq<int>, lists: seq<seq<int>>) {
    && Packed(L) && Fits(L, |m|)
    && 0 <= base && (forall a :: a in L ==> base <= a)
    && Tagged(m, L)
    && Threaded(m, L, heads, lists)
  }

  ghost predicate Threaded(m: Bytes, L: Blocks, heads: seq<int>, lists: seq<seq<int>>)
    requires Packed(L) && Fits(L, |m|)
  {
    && |heads| == |lists|
    && (forall b :: 0 <= b < |lists| ==> Chained(m, L, heads[b], lists[b]) && Distinct(lists[b]))
    && NoShare(lists)
  }

  ghost predicate NoShare(lists: seq<seq<int>>) {
    forall b, c, x :: 0 <= b < |lists| && 0 <= c < |lists| && x in lists[b] && x in lists[c] ==> b == c
  }

  ghost predicate Listless(lists: seq<seq<int>>, x: int) {
    forall b :: 0 <= b < |lists| ==> x !in lists[b]
  }

  /** set_tags on a block that overlaps no other keeps everything wired. */
  lemma SetTagsWired(m: Bytes, base: int, L: Blocks, heads: seq<int>, lists: seq<seq<int>>,
                     a: int, size: int, flag: bool, keep: Blocks)
    requires Wired(m, base, L, heads, lists)
    requires base <= a && MIN_BLOCK <= size < TAG_LIMIT - 1 && a + size <= |m|
    requires Ready(L[a := Block(size, flag, flag)], |m|, keep)
    ensures a >= 0 && Wired(SetTags(m, a, size, flag), base, L[a := Block(size, flag, flag)], heads, lists)
    ensures KeepsPayloads(m, SetTags(m, a, size, flag), keep)
  {
    var M := L[a := Block(size, flag, flag)];
    var r := SetTags(m, a, size, flag);
    assert Tagged(m, M - {a}) by {
      assert M - {a} == L - {a};
    }
    SetTagsFrame(m, M, a, size, flag);
    forall b | 0 <= b < |lists| ensures Chained(r, M, heads[b], lists[b]) {
      ChainFrame(m, r, L, M, heads[b], lists[b]);
    }
    KeepsWithin(m, r, keep, M);
    assert Threaded(r, M, heads, lists);
    hide Packed, Fits, Tagged, Threaded, KeepsPayloads;
  }

  lemma ClearFrame(m: Bytes, L: Blocks, a: int)
    requires Packed(L) && Fits(L, |m|) && Tagged(m, L) && a in L
    ensures Packed(L[a := L[a].(used := false)]) && Fits(L[a := L[a].(used := false)], |m|)
    ensures Tagged(Store(m, a, WORD_TAG, L[a].size), L[a := L[a].(used := false)])
    ensures KeepsPayloads(m, Store(m, a, WORD_TAG, L[a].size), L[a := L[a].(used := false)])
  {
    hide TagsAt, Load, SameBytes, Packed, Fits, Store;
    var M := L[a := L[a].(used := false)];
    ClearPacked(L, |m|, a);
    var r := Store(m, a, WORD_TAG, L[a].size);
    ClearedTags(m, L, M, a);
  }

  lemma ClearPacked(L: Blocks, length: int, a: int)
    requires Packed(L) && Fits(L, length) && a in L
    ensures Packed(L[a := L[a].(used := false)]) && Fits(L[a := L[a].(used := false)], length)
    ensures 0 <= a && MIN_BLOCK <= L[a].size && a + L[a].size <= length
  {
    assert L[a].Shaped();
  }

  lemma ClearedTags(m: Bytes, L: Blocks, M: Blocks, a: int)
    requires Packed(L) && Fits(L, |m|) && Tagged(m, L) && a in L && M == L[a := L[a].(used := false)]
    requires Packed(M) && Fits(M, |m|) && L[a].size >= 0 && InBounds(m, a, WORD_TAG)
    ensures Tagged(Store(m, a, WORD_TAG, L[a].size), M)
    ensures KeepsPayloads(m, Store(m, a, WORD_TAG, L[a].size), M)
  {
    hide Load, SameBytes;
    forall c | c in M
      ensures TagsAt(Store(m, a, WORD_TAG, L[a].size), c, M[c])
      ensures SameBytes(m, Store(m, a, WORD_TAG, L[a].size), c + 4, M[c].size - OVERHEAD)
    {
      ClearBlock(m, L, a, c);
    }
    hide TagsAt, Packed, Fits, Store;
  }

  lemma ClearBlock(m: Bytes, L: Blocks, a: int, c: int)
    requires Packed(L) && Fits(L, |m|) && Tagged(m, L) && a in L && c in L
    ensures var r, b := Store(m, a, WORD_TAG, L[a].size), if c == a then L[a].(used := false) else L[c];
            TagsAt(r, c, b) && SameBytes(m, r, c + 4, b.size - OVERHEAD)
  {
    hide TagsAt, Load;
    assert TagsAt(m, c, L[c]);
    if c == a {
      ClearSelf(m, a, L[a]);
    } else {
      Disjoint(L, a, c);
      TagsStay(m, Store(m, a, WORD_TAG, L[a].size), c, L[c]);
    }
    hide Packed, Fits, Tagged;
  }

  lemma ClearSelf(m: Bytes, a: int, b: Block)
    requires 0 <= a && MIN_BLOCK <= b.size < TAG_LIMIT && a + b.size <= |m| && TagsAt(m, a, b)
    ensures TagsAt(Store(m, a, WORD_TAG, b.size), a, b.(used := false))
  {
    hide Load;
    CapacityTag();
    LoadStored(m, a, WORD_TAG, b.size);
    LoadSame(m, Store(m, a, WORD_TAG, b.size), a + b.size - 4, WORD_TAG);
  }

  /** Clearing the used flag in the header only, as free does. */
  lemma ClearWired(m: Bytes, base: int, L: Blocks, heads: seq<int>, lists: seq<seq<int>>, a: int, keep: Blocks)
    requires Wired(m, base, L, heads, lists) && a in L && Within(keep, L)
    ensures 0 <= L[a].size && InBounds(m, a, WORD_TAG)
    ensures Wired(Store(m, a, WORD_TAG, L[a].size), base, L[a := L[a].(used := false)], heads, lists)
    ensures KeepsPayloads(m, Store(m, a, WORD_TAG, L[a].size), keep)
  {
    var M := L[a := L[a].(used := false)];
    assert L[a].Shaped() && Within(keep, M);
    hide Packed, Tagged, Within, Chained;
    ClearFrame(m, L, a);
    var r := Store(m, a, WORD_TAG, L[a].size);
    forall b | 0 <= b < |lists| ensures Chained(r, M, heads[b], lists[b]) {
      RetagChained(m, r, L, M, heads[b], lists[b]);
    }
    assert Threaded(r, M, heads, lists);
    KeepsWithin(m, r, keep, M);
    hide Fits, Threaded;
  }

  lemma RetagChained(m: Bytes, r: Bytes, L: Blocks, M: Blocks, head: int, free: seq<int>)
    requires |m| == |r| && Packed(L) && Fits(L, |m|) && Packed(M) && Fits(M, |r|)
    requires Chained(m, L, head, free) && KeepsPayloads(m, r, M)
    requires forall c :: c in L ==> c in M
    ensures Chained(r, M, head, free)
  {
    ChainFrame(m, r, L, M, head, free);
  }

  /** A write inside one payload leaves all tags and all other payloads alone. */
  lemma PayloadTags(m: Bytes, r: Bytes, L: Blocks, a: int)
    requires Packed(L) && Fits(L, |m|) && Tagged(m, L) && |m| == |r| && a in L
    requires forall i :: 0 <= i < |m| && (i < a + 4 || a + L[a].size - 4 <= i) ==> r[i] == m[i]
    ensures Tagged(r, L) && KeepsPayloads(m, r, L - {a})
  {
    hide TagsAt;
    forall c | c in L ensures TagsAt(r, c, L[c]) && (c != a ==> SameBytes(m, r, c + 4, L[c].size - OVERHEAD)) {
      assert TagsAt(m, c, L[c]) && L[c].Shaped();
      if c != a {
        Disjoint(L, a, c);
      }
      TagsStay(m, r, c, L[c]);
    }
    hide Packed, Fits, SameBytes;
  }

  /** The client may write what it likes inside the payload of an unlisted block. */
  lemma PayloadWired(m: Bytes, r: Bytes, base: int, L: Blocks, heads: seq<int>, lists: seq<seq<int>>,
                     a: int, keep: Blocks)
    requires Wired(m, base, L, heads, lists) && |m| == |r| && a in L && Listless(lists, a)
    requires forall i :: 0 <= i < |m| && (i < a + 4 || a + L[a].size - 4 <= i) ==> r[i] == m[i]
    requires Within(keep, L - {a})
    ensures Wired(r, base, L, heads, lists)
    ensures KeepsPayloads(m, r, keep)
  {
    hide Packed, Fits, Tagged, KeepsPayloads, Within, Chained;
    PayloadTags(m, r, L, a);
    KeepsWithin(m, r, keep, L - {a});
    forall b | 0 <= b < |lists| ensures Chained(r, L, heads[b], lists[b]) {
      UnlistedChained(m, r, L, heads[b], lists[b], a);
    }
    assert Threaded(r, L, heads, lists);
  }

  lemma UnlistedChained(m: Bytes, r: Bytes, L: Blocks, head: int, free: seq<int>, a: int)
    requires |m| == |r| && Packed(L) && Fits(L, |m|) && Chained(m, L, head, free)
    requires KeepsPayloads(m, r, L - {a}) && a !in free
    ensures Chained(r, L, head, free)
  {
    forall k | 0 <= k < |free| ensures SameBytes(m, r, free[k] + 4, L[free[k]].size - OVERHEAD) {
      assert free[k] in free && free[k] in L - {a};
    }
    ChainFrame(m, r, L, L, head, free);
  }

  /** Forgetting a block that is on no list. */
  lemma DropWired(m: Bytes, base: int, L: Blocks, heads: seq<int>, lists: seq<seq<int>>, x: int)
    requires Wired(m, base, L, heads, lists) && Listless(lists, x)
    ensures Wired(m, base, L - {x}, heads, lists)
  {
    forall b | 0 <= b < |lists| ensures Chained(m, L - {x}, heads[b], lists[b]) {
      ChainDrop(m, L, heads[b], lists[b], x);
    }
    assert Threaded(m, L - {x}, heads, lists);
    hide Threaded;
  }

  /** Threads survive when one list and its head change and the blocks of the
      others are left alone. */
  lemma ThreadedUpdate(m: Bytes, r: Bytes, L: Blocks, heads: seq<int>, lists: seq<seq<int>>,
                       b: nat, head: int, list: seq<int>)
    requires |m| == |r| && Packed(L) && Fits(L, |m|) && Fits(L, |r|) && Threaded(m, L, heads, lists) && b < |lists|
    requires forall c :: 0 <= c < |lists| && c != b ==> Chained(r, L, heads[c], lists[c])
    requires Chained(r, L, head, list) && Distinct(list)
    requires forall x :: x in list ==> x in lists[b] || Listless(lists, x)
    ensures Threaded(r, L, heads[b := head], lists[b := list])
  {
    hide Chained, Distinct, Packed, Fits;
    assert NoShare(lists[b := list]);
  }

  lemma FlagMatches(m: Bytes, base: int, L: Blocks, heads: seq<int>, lists: seq<seq<int>>, a: int)
    requires Wired(m, base, L, heads, lists) && InBounds(m, a, WORD_TAG)
    ensures a in L ==> TagFlag(Load(m, a, WORD_TAG)) == L[a].used
  {
    if a in L {
      assert TagsAt(m, a, L[a]) && L[a].Shaped();
      TagParts(L[a].size, L[a].used);
    }
  }

  lemma WiredBounds(m: Bytes, base: int, L: Blocks, heads: seq<int>, lists: seq<seq<int>>, a: int)
    requires Wired(m, base, L, heads, lists) && a in L
    ensures 0 <= base <= a && MIN_BLOCK <= L[a].size && a + L[a].size <= |m|
  {
    assert L[a].Shaped();
  }

  lemma WiredApart(m: Bytes, base: int, L: Blocks, heads: seq<int>, lists: seq<seq<int>>, a: int, c: int)
    requires Wired(m, base, L, heads, lists) && a in L && c in L && a != c
    ensures a + L[a].size <= c || c + L[c].size <= a
  {
    Disjoint(L, a, c);
    hide Packed;
  }

  lemma WiredBlock(m: Bytes, base: int, L: Blocks, heads: seq<int>, lists: seq<seq<int>>, b: nat, k: nat)
    requires Wired(m, base, L, heads, lists) && b < |lists| && k < |lists[b]|
    ensures lists[b][k] in L && base <= lists[b][k]
  {
    assert Chained(m, L, heads[b], lists[b]);
  }

  /** freelist_push onto list b. */
  lemma PushWired(m: Bytes, base: int, L: Blocks, heads: seq<int>, lists: seq<seq<int>>,
                  b: nat, x: int, keep: Blocks)
    requires Wired(m, base, L, heads, lists) && b < |lists|
    requires x in L && Listless(lists, x) && Within(keep, L - {x})
    ensures x >= 0 && heads[b] >= 0 && x + 12 <= |m|
    ensures Wired(Store(m, x + 4, WORD_LINK, heads[b]), base, L, heads[b := x], PutOn(lists, b, x))
    ensures KeepsPayloads(m, Store(m, x + 4, WORD_LINK, heads[b]), keep)
  {
    assert L[x].Shaped();
    assert Chained(m, L, heads[b], lists[b]) && Distinct(lists[b]);
    hide Chained, Threaded, Packed, Tagged, KeepsPayloads, Within;
    PushChained(m, L, heads[b], lists[b], x);
    var r := Store(m, x + 4, WORD_LINK, heads[b]);
    LinkFrame(m, L, x, heads[b]);
    OtherChains(m, r, L, heads, lists, b, x);
    KeepsWithin(m, r, keep, L - {x});
    ThreadedUpdate(m, r, L, heads, lists, b, x, [x] + lists[b]);
  }

  /** A store into the link of x disturbs no list but the one x is on. */
  lemma OtherChains(m: Bytes, r: Bytes, L: Blocks, heads: seq<int>, lists: seq<seq<int>>, b: nat, x: int)
    requires |m| == |r| && Packed(L) && Fits(L, |m|) && Threaded(m, L, heads, lists) && b < |lists|
    requires KeepsPayloads(m, r, L - {x})
    requires forall c :: 0 <= c < |lists| && c != b ==> x !in lists[c]
    ensures forall c :: 0 <= c < |lists| && c != b ==> Chained(r, L, heads[c], lists[c])
  {
    forall c | 0 <= c < |lists| && c != b ensures Chained(r, L, heads[c], lists[c]) {
      UnlistedChained(m, r, L, heads[c], lists[c], x);
    }
  }

  /** Taking the first block off list b needs no store. */
  lemma UnlinkFirstWired(m: Bytes, base: int, L: Blocks, heads: seq<int>, lists: seq<seq<int>>, b: nat)
    requires Wired(m, base, L, heads, lists) && b < |lists| && 0 < |lists[b]|
    ensures Wired(m, base, L, heads[b := At(lists[b], 1)], TakeOff(lists, b, 0))
  {
    assert forall c :: 0 <= c < |lists| ==> Chained(m, L, heads[c], lists[c]) && Distinct(lists[c]);
    hide Chained, Threaded, Packed, Fits, Tagged;
    RemoveAtSubset(lists[b], 0);
    UnlinkFirst(m, L, heads[b], lists[b]);
    ThreadedUpdate(m, m, L, heads, lists, b, At(lists[b], 1), RemoveAt(lists[b], 0));
    assert TakeOff(lists, b, 0) == lists[b := RemoveAt(lists[b], 0)];
  }

  /** Taking a later block off list b: its successor goes into the link of the
      block before it. */
  lemma UnlinkLaterWired(m: Bytes, base: int, L: Blocks, heads: seq<int>, lists: seq<seq<int>>,
                         b: nat, k: nat, keep: Blocks)
    requires Wired(m, base, L, heads, lists) && b < |lists| && 0 < k < |lists[b]|
    requires Within(keep, L) && lists[b][k - 1] !in keep
    ensures base <= lists[b][k - 1] && lists[b][k - 1] + 12 <= |m| && At(lists[b], k + 1) >= 0
    ensures Wired(Store(m, lists[b][k - 1] + 4, WORD_LINK, At(lists[b], k + 1)), base, L, heads, TakeOff(lists, b, k))
    ensures KeepsPayloads(m, Store(m, lists[b][k - 1] + 4, WORD_LINK, At(lists[b], k + 1)), keep)
  {
    var free, x, v := lists[b], lists[b][k - 1], At(lists[b], k + 1);
    assert Chained(m, L, heads[b], free) && Distinct(free);
    assert x in free && x in L && L[x].Shaped();
    assert Within(keep, L - {x});
    assert forall c :: 0 <= c < |lists| && c != b ==> x !in lists[c];
    hide Chained, Threaded, Packed, Tagged, KeepsPayloads, Within, NoShare, RemoveAt, At;
    UnlinkLater(m, L, heads[b], free, k);
    LinkFrame(m, L, x, v);
    var r := Store(m, x + 4, WORD_LINK, v);
    OtherChains(m, r, L, heads, lists, b, x);
    KeepsWithin(m, r, keep, L - {x});
    RemoveAtSubset(free, k);
    ThreadedUpdate(m, r, L, heads, lists, b, heads[b], RemoveAt(free, k));
    assert heads[b := heads[b]] == heads;
  }

  /** A header that is no block is on no list, also once one block is taken off. */
  lemma OutsideListless(m: Bytes, base: int, L: Blocks, heads: seq<int>, lists: seq<seq<int>>, b: nat, k: nat, x: int)
    requires Wired(m, base, L, heads, lists) && b < |lists| && k < |lists[b]|
    requires x !in L
    ensures Listless(TakeOff(lists, b, k), x)
  {
    forall c | 0 <= c < |lists| ensures x !in lists[c] {
      assert Chained(m, L, heads[c], lists[c]);
    }
    RemoveAtSubset(lists[b], k);
  }

  lemma RemoveAtSubset(free: seq<int>, k: nat)
    requires k < |free|
    ensures forall x :: x in RemoveAt(free, k) ==> x in free
    ensures Distinct(free) ==> Distinct(RemoveAt(free, k))
  {
  }

  // --- counting ----------------------------------------------------------------

  /** Distinct elements that all occur in t number at most |t|. */
  lemma {:induction false} DistinctWithin(s: seq<int>, t: seq<int>)
    requires Distinct(s) && forall x :: x in s ==> x in t
    ensures |s| <= |t|
  {
    if s != [] {
      var x := s[0];
      assert x in s;
      var k :| 0 <= k < |t| && t[k] == x;
      var rest := RemoveAt(t, k);
      forall y | y in s[1..] ensures y in rest {
        var i :| 0 <= i < |s[1..]| && s[1..][i] == y;
        assert y == s[i + 1] != x && y in s;
        var j :| 0 <= j < |t| && t[j] == y;
        assert rest[if j < k then j else j - 1] == y;
      }
      DistinctWithin(s[1..], rest);
    }
  }
}
