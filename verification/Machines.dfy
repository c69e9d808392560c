/** Both abstract heaps on one trace, and how much of a trace an arena can hold.

    This is what the two allocators are measured against: which commands each machine
    answers with a pointer, and what each then is. No memory is involved.
 */
module Machines {
  import opened Layout
  import opened FreeLists
  import opened ClientStore
  import FF = FirstFit
  import FFH = FirstFitHeap
  import Seg = Segregated
  import SegH = SegregatedHeap

  /** Sizes whose arithmetic stays in range in both allocators: above, the first-fit realloc
      masks the size to 32 bits and malloc may wrap. */
  predicate Servable(cmd: Cmd) {
    match cmd
    case New(_, size) => 0 <= size && size + 23 < TAG_LIMIT
    case NewZeroed(_, nmemb, size) =>
      0 <= nmemb < SIZE_LIMIT && 0 <= size < SIZE_LIMIT && nmemb * size + 23 < TAG_LIMIT
    case Resize(_, size) => 0 <= size && size + 23 < TAG_LIMIT
    case Drop(_) => true
    case Put(_, _, _) => true
  }

  /** The two machines, where each has put the handles, and the store they stand for. */
  datatype Sides = Sides(h: FFH.Heap, env: Env, g: SegH.Heap, env': Env, store: Store)

  ghost function Start(base: int, base': int): Sides
    requires ArenaAt(base) && ArenaAt(base')
  {
    Sides(FFH.Empty(base), map[], SegH.Empty(base'), map[], map[])
  }

  /** The command makes sense and both machines can be asked. */
  ghost predicate Ready(s: Sides, cmd: Cmd) {
    && Sensible(s.store, cmd) && Servable(cmd) && |s.g.bins| == SegH.NUM_BINS
    && (!cmd.New? && !cmd.NewZeroed? ==> cmd.id in s.env && cmd.id in s.env')
  }

  ghost function Left(s: Sides, cmd: Cmd): (FFH.Heap, int)
    requires Ready(s, cmd)
  {
    FF.Served(s.h, CallOf(s.env, cmd))
  }

  ghost function Right(s: Sides, cmd: Cmd): (SegH.Heap, int)
    requires Ready(s, cmd)
  {
    Seg.Served(s.g, CallOf(s.env', cmd))
  }

  /** Both machines return a pointer or neither does. */
  ghost predicate Alike(s: Sides, cmd: Cmd) {
    Ready(s, cmd) && (Left(s, cmd).1 == 0 <==> Right(s, cmd).1 == 0)
  }

  ghost function Served(s: Sides, cmd: Cmd): Sides
    requires Ready(s, cmd)
  {
    var ((h, r), (g, r')) := (Left(s, cmd), Right(s, cmd));
    Sides(h, NextEnv(s.env, cmd, r), g, NextEnv(s.env', cmd, r'), Effect(s.store, cmd, r != 0))
  }

  /** The machines after a trace, for as long as they agree. */
  ghost function After(s: Sides, cmds: seq<Cmd>): Sides {
    if cmds == [] then s
    else
      var before, cmd := After(s, cmds[..|cmds| - 1]), cmds[|cmds| - 1];
      if Alike(before, cmd) then Served(before, cmd) else before
  }

  /** They agree on every command of the trace. */
  ghost predicate Agreed(s: Sides, cmds: seq<Cmd>) {
    cmds == [] || (Agreed(s, cmds[..|cmds| - 1]) && Alike(After(s, cmds[..|cmds| - 1]), cmds[|cmds| - 1]))
  }

  /** Which commands were answered with a pointer. */
  ghost function Answers(s: Sides, cmds: seq<Cmd>): seq<bool>
    requires Agreed(s, cmds)
  {
    if cmds == [] then []
    else
      Answers(s, cmds[..|cmds| - 1]) + [Left(After(s, cmds[..|cmds| - 1]), cmds[|cmds| - 1]).1 != 0]
  }

  lemma {:induction false} AgreedPrefix(s: Sides, cmds: seq<Cmd>, k: int)
    requires Agreed(s, cmds) && 0 <= k < |cmds|
    ensures Agreed(s, cmds[..k]) && Alike(After(s, cmds[..k]), cmds[k])
    decreases |cmds|
  {
    hide Alike, After;
    var n := |cmds| - 1;
    if k < n {
      AgreedPrefix(s, cmds[..n], k);
      assert cmds[..n][..k] == cmds[..k] && cmds[..n][k] == cmds[k];
    }
  }

  lemma OneMore(s: Sides, cmds: seq<Cmd>, k: int)
    requires 0 <= k < |cmds| && Agreed(s, cmds[..k]) && Alike(After(s, cmds[..k]), cmds[k])
    ensures Agreed(s, cmds[..k + 1])
    ensures After(s, cmds[..k + 1]) == Served(After(s, cmds[..k]), cmds[k])
    ensures Answers(s, cmds[..k + 1]) == Answers(s, cmds[..k]) + [Left(After(s, cmds[..k]), cmds[k]).1 != 0]
  {
    hide Alike;
    assert cmds[..k + 1][..k] == cmds[..k];
  }

  // --- capacity -----------------------------------------------------------------------

  /** The most a command can add to either heap; a realloc that moves rounds twice in the
      first-fit allocator. */
  function Cost(cmd: Cmd): int
    requires Servable(cmd)
  {
    match cmd
    case New(_, size) => Need(size)
    case NewZeroed(_, nmemb, size) => if nmemb * size <= 0 then 0 else Need(nmemb * size)
    case Resize(_, size) => if size == 0 then 0 else Need(size) + 16
    case Drop(_) => 0
    case Put(_, _, _) => 0
  }

  /** The commands that should be answered with a pointer. */
  predicate Allocates(cmd: Cmd) {
    match cmd
    case New(_, _) => true
    case NewZeroed(_, nmemb, size) => nmemb * size > 0
    case Resize(_, size) => size != 0
    case Drop(_) => false
    case Put(_, _, _) => false
  }

  // --- each machine: handles stay on blocks in use, and the break keeps to the bound --------

  ghost predicate Held(used: Blocks, env: Env) {
    OneToOne(env) && forall id :: id in env ==> env[id] != 0 && env[id] - 4 in used
  }

  lemma HeldNew(used: Blocks, env: Env, id: int, q: int, b: Block)
    requires Held(used, env) && q != 0 && q - 4 !in used
    ensures Held(used[q - 4 := b], env[id := q])
  {
  }

  lemma HeldDrop(used: Blocks, env: Env, id: int)
    requires Held(used, env) && id in env
    ensures Held(used - {env[id] - 4}, env - {id})
  {
  }

  lemma HeldMove(used: Blocks, env: Env, id: int, q: int, b: Block)
    requires Held(used, env) && id in env && q != 0 && (q == env[id] || q - 4 !in used)
    ensures Held((used - {env[id] - 4})[q - 4 := b], env[id := q])
  {
  }

  lemma LeftRoom(h: FFH.Heap, size: int)
    requires h.Valid() && Sane(h.Top(), size) && h.Top() + Need(size) <= h.base + ARENA_SIZE
    ensures FFH.Malloc(h, size).1 != 0 && FFH.Malloc(h, size).0.Top() <= h.Top() + Need(size)
  {
    hide Tiles, Listed, Need, FFH.Unlisted, Placed;
    var k := Fit(h.blocks, h.free, Need(size), 0);
    if k < |h.free| { FFH.FreeBlock(h, k); }
  }

  lemma RightRoom(h: SegH.Heap, size: int)
    requires h.Valid() && |h.bins| == SegH.NUM_BINS && Sane(h.Top(), size)
             && h.Top() + Need(size) <= h.base + ARENA_SIZE
    ensures SegH.Malloc(h, size).1 != 0 && SegH.Malloc(h, size).0.Top() <= h.Top() + Need(size)
  {
    hide Tiles, SegH.Binned, Need, SegH.Bin, SegH.Rebinned, Placed, UsedBytes;
    var b := SegH.Bin(Need(size));
    var k := Fit(h.blocks, h.bins[b], Need(size), 0);
    if k < |h.bins[b]| { SegH.ListedBlock(h, b, k); }
  }

  lemma NeedFits(size: int, top: int)
    requires 0 <= size && size + 23 < TAG_LIMIT && top <= USER_LIMIT + ARENA_SIZE
    ensures Requestable(top, size) && Sane(top, size) && Need(size) >= MIN_BLOCK
    ensures FFH.NewSize(size) == Need(size) && Need(FFH.NewSize(size)) == Need(size) + 16
    ensures Sane(top, FFH.NewSize(size))
  {
  }

  /** A machine after a command it had room for. */
  ghost predicate LeftDone(h: FFH.Heap, env: Env, cmd: Cmd, g: FFH.Heap, r: int)
    requires Servable(cmd)
  {
    && g.Valid() && g.base == h.base && g.Top() <= h.Top() + Cost(cmd)
    && (r != 0 <==> Allocates(cmd))
    && Held(Used(g.blocks), NextEnv(env, cmd, r))
  }

  lemma LeftMalloc(h: FFH.Heap, env: Env, id: int, size: int)
    requires h.Valid() && Held(Used(h.blocks), env) && Requestable(h.Top(), size) && Sane(h.Top(), size)
    requires h.Top() + Need(size) <= h.base + ARENA_SIZE
    ensures var (g, r) := FFH.Malloc(h, size);
            && g.Valid() && g.base == h.base && g.Top() <= h.Top() + Need(size) && r != 0
            && Held(Used(g.blocks), env[id := r])
  {
    hide FFH.Heap.Valid, FFH.Malloc, Need, Used, Held;
    FFH.MallocValid(h, size);
    LeftRoom(h, size);
    var (g, r) := FFH.Malloc(h, size);
    HeldNew(Used(h.blocks), env, id, r, Block(Need(size), true, true));
  }

  lemma LeftRealloc(h: FFH.Heap, env: Env, id: int, size: int)
    requires h.Valid() && Held(Used(h.blocks), env) && id in env && 0 < size && size + 23 < TAG_LIMIT
    requires h.Top() + Need(size) + 16 <= h.base + ARENA_SIZE
    ensures var (g, r) := FF.Served(h, Realloc(env[id], size)); LeftDone(h, env, Resize(id, size), g, r)
  {
    hide FFH.Heap.Valid, FFH.Malloc, FFH.Free, FFH.Grow, FFH.Shrink, Need, FFH.NewSize, OneToOne;
    var p := env[id];
    TopBelow(h.base, h.cur) by { LeftBreak(h); }
    NeedFits(size, h.Top());
    UsedAt(h.blocks, p - 4);
    FFH.ReallocValid(h, p, size);
    var (g, r) := FFH.Realloc(h, p, size);
    LeftTop(h, p, size);
    var b := if r == p then Block(FFH.NewSize(size), true, true) else Block(FFH.NewSize(size) + 16, true, true);
    if r == p { assert Used(h.blocks)[p - 4 := b] == (Used(h.blocks) - {p - 4})[p - 4 := b]; }
    HeldMove(Used(h.blocks), env, id, r, b);
  }

  lemma LeftBreak(h: FFH.Heap)
    requires h.Valid()
    ensures ArenaAt(h.base) && BreakAt(h.base, h.cur)
  {
  }

  lemma RightBreak(h: SegH.Heap)
    requires h.Valid()
    ensures ArenaAt(h.base) && BreakAt(h.base, h.cur) && |h.bins| == SegH.NUM_BINS
  {
  }

  lemma TopBelow(base: int, cur: int)
    requires ArenaAt(base) && BreakAt(base, cur)
    ensures Top(base, cur) <= USER_LIMIT
  {
  }

  lemma LeftTop(h: FFH.Heap, p: int, size: int)
    requires h.Valid() && p != 0 && p - 4 in Used(h.blocks) && p - 4 in h.blocks && 0 < size && size + 23 < TAG_LIMIT
    requires h.Top() + Need(size) + 16 <= h.base + ARENA_SIZE
    ensures var (g, r) := FFH.Realloc(h, p, size); g.Top() <= h.Top() + Need(size) + 16 && r != 0
  {
    hide FFH.Heap.Valid, FFH.Malloc, FFH.Free, Need, FFH.NewSize, Used;
    TopBelow(h.base, h.cur) by { LeftBreak(h); }
    NeedFits(size, h.Top());
    LeftRoom(h, FFH.NewSize(size));
    var (g, q) := FFH.Malloc(h, FFH.NewSize(size));
    FFH.MallocValid(h, FFH.NewSize(size));
    FFH.FreeValid(g, p);
  }

  lemma LeftFree(h: FFH.Heap, env: Env, id: int)
    requires h.Valid() && Held(Used(h.blocks), env) && id in env
    ensures var g := FFH.Free(h, env[id]);
            g.Valid() && g.base == h.base && g.Top() == h.Top() && Held(Used(g.blocks), env - {id})
  {
    hide FFH.Heap.Valid, FFH.Free, Used, Held;
    FFH.FreeValid(h, env[id]);
    HeldDrop(Used(h.blocks), env, id);
  }

  lemma LeftStep(h: FFH.Heap, env: Env, cmd: Cmd)
    requires h.Valid() && Held(Used(h.blocks), env) && Servable(cmd)
    requires !cmd.New? && !cmd.NewZeroed? ==> cmd.id in env
    requires h.Top() + Cost(cmd) <= h.base + ARENA_SIZE
    ensures var (g, r) := FF.Served(h, CallOf(env, cmd)); LeftDone(h, env, cmd, g, r)
  {
    hide FFH.Heap.Valid, FFH.Malloc, FFH.Free, FFH.Realloc, Need, Used, Held, OneToOne;
    TopBelow(h.base, h.cur) by { LeftBreak(h); }
    match cmd
    case New(id, size) =>
      NeedFits(size, h.Top());
      LeftMalloc(h, env, id, size);
    case NewZeroed(id, nmemb, size) =>
      if nmemb * size > 0 {
        NeedFits(nmemb * size, h.Top());
        LeftMalloc(h, env, id, nmemb * size);
      }
    case Resize(id, size) =>
      HeldAt(h.blocks, env, id);
      if size > 0 {
        NeedFits(size, h.Top());
        LeftRealloc(h, env, id, size);
      } else {
        FFH.ReallocIs(h, env[id], 0);
        LeftFree(h, env, id);
      }
    case Drop(id) => LeftFree(h, env, id);
    case Put(_, _, _) =>
  }

  lemma HeldAt(L: Blocks, env: Env, id: int)
    requires Held(Used(L), env) && id in env
    ensures env[id] != 0 && env[id] - 4 in L && L[env[id] - 4].used
  {
    UsedAt(L, env[id] - 4);
  }

  ghost predicate RightDone(h: SegH.Heap, env: Env, cmd: Cmd, g: SegH.Heap, r: int)
    requires Servable(cmd)
  {
    && g.Valid() && g.base == h.base && g.Top() <= h.Top() + Cost(cmd)
    && (r != 0 <==> Allocates(cmd))
    && Held(Used(g.blocks), NextEnv(env, cmd, r))
  }

  lemma RightMalloc(h: SegH.Heap, env: Env, id: int, size: int)
    requires h.Valid() && |h.bins| == SegH.NUM_BINS && Held(Used(h.blocks), env) && Sane(h.Top(), size)
    requires h.Top() + Need(size) <= h.base + ARENA_SIZE
    ensures var (g, r) := SegH.Malloc(h, size);
            && g.Valid() && g.base == h.base && g.Top() <= h.Top() + Need(size) && r != 0
            && Held(Used(g.blocks), env[id := r])
  {
    hide SegH.Heap.Valid, SegH.Malloc, Need, Used, Held;
    SegH.MallocGained(h, size);
    RightRoom(h, size);
    var (g, r) := SegH.Malloc(h, size);
    HeldNew(Used(h.blocks), env, id, r, Block(Need(size), true, true));
  }

  lemma RightRealloc(h: SegH.Heap, env: Env, id: int, size: int)
    requires h.Valid() && |h.bins| == SegH.NUM_BINS && Held(Used(h.blocks), env) && id in env && 0 < size
    requires Requestable(h.Top(), size) && Sane(h.Top(), size) && h.Top() + Need(size) <= h.base + ARENA_SIZE
    ensures var (g, r) := SegH.Realloc(h, env[id], size);
            && g.Valid() && g.base == h.base && g.Top() <= h.Top() + Need(size) && r != 0
            && Held(Used(g.blocks), env[id := r])
  {
    hide SegH.Heap.Valid, SegH.Malloc, SegH.Free, Need, OneToOne, Used;
    var p := env[id];
    UsedAt(h.blocks, p - 4);
    SegH.ReallocResized(h, p, size);
    RightRoom(h, size);
    var (m, q) := SegH.Malloc(h, size);
    SegH.MallocGained(h, size);
    SegH.BinCount(m);
    SegH.FreeValid(m, p);
    HeldMove(Used(h.blocks), env, id, q, Block(Need(size), true, true));
  }

  lemma RightFree(h: SegH.Heap, env: Env, id: int)
    requires h.Valid() && |h.bins| == SegH.NUM_BINS && Held(Used(h.blocks), env) && id in env
    ensures var g := SegH.Free(h, env[id]);
            g.Valid() && g.base == h.base && g.Top() == h.Top() && Held(Used(g.blocks), env - {id})
  {
    hide SegH.Heap.Valid, SegH.Free, Used, Held;
    SegH.FreeValid(h, env[id]);
    HeldDrop(Used(h.blocks), env, id);
  }

  lemma RightStep(h: SegH.Heap, env: Env, cmd: Cmd)
    requires h.Valid() && |h.bins| == SegH.NUM_BINS && Held(Used(h.blocks), env) && Servable(cmd)
    requires !cmd.New? && !cmd.NewZeroed? ==> cmd.id in env
    requires h.Top() + Cost(cmd) <= h.base + ARENA_SIZE
    ensures var (g, r) := Seg.Served(h, CallOf(env, cmd)); RightDone(h, env, cmd, g, r)
  {
    hide SegH.Heap.Valid, SegH.Malloc, SegH.Free, SegH.Realloc, Need, Used, Held, OneToOne;
    TopBelow(h.base, h.cur) by { RightBreak(h); }
    match cmd
    case New(id, size) =>
      NeedFits(size, h.Top());
      RightMalloc(h, env, id, size);
    case NewZeroed(id, nmemb, size) =>
      if nmemb * size > 0 {
        NeedFits(nmemb * size, h.Top());
        RightMalloc(h, env, id, nmemb * size);
      }
    case Resize(id, size) =>
      HeldAt(h.blocks, env, id);
      if size > 0 {
        NeedFits(size, h.Top());
        RightRealloc(h, env, id, size);
      } else {
        SegH.ReallocIs(h, env[id], 0);
        RightFree(h, env, id);
      }
    case Drop(id) => RightFree(h, env, id);
    case Put(_, _, _) =>
  }

  // --- traces that fit ------------------------------------------------------------------------

  /** The store after a trace whose allocations all succeed. */
  function Ideal(cmds: seq<Cmd>): Store {
    if cmds == [] then map[]
    else
      var s, cmd := Ideal(cmds[..|cmds| - 1]), cmds[|cmds| - 1];
      if Sensible(s, cmd) then Effect(s, cmd, Allocates(cmd)) else s
  }

  /** Every command makes sense where it stands and keeps to servable sizes. */
  predicate Fair(cmds: seq<Cmd>) {
    cmds == [] ||
    (Fair(cmds[..|cmds| - 1]) && Sensible(Ideal(cmds[..|cmds| - 1]), cmds[|cmds| - 1]) && Servable(cmds[|cmds| - 1]))
  }

  /** All the room the trace can ask for. */
  function Demand(cmds: seq<Cmd>): int
    requires Fair(cmds)
  {
    if cmds == [] then FIRST_PAD else Demand(cmds[..|cmds| - 1]) + Cost(cmds[|cmds| - 1])
  }

  /** Both machines are valid, know where the handles are, and have used no more than d. */
  ghost predicate Steady(s: Sides, base: int, base': int, d: int) {
    && s.h.Valid() && s.g.Valid() && s.h.base == base && s.g.base == base'
    && |s.g.bins| == SegH.NUM_BINS
    && Held(Used(s.h.blocks), s.env) && Held(Used(s.g.blocks), s.env')
    && s.env.Keys == s.env'.Keys == s.store.Keys
    && s.h.Top() <= base + d && s.g.Top() <= base' + d
  }

  lemma CostPositive(cmd: Cmd)
    requires Servable(cmd)
    ensures Cost(cmd) >= 0
  {
  }

  lemma KeysNext(env: Env, s: Store, cmd: Cmd, r: int)
    requires env.Keys == s.Keys && Sensible(s, cmd) && (r != 0 <==> Allocates(cmd))
    ensures NextEnv(env, cmd, r).Keys == Effect(s, cmd, Allocates(cmd)).Keys
  {
  }

  lemma SteadyNext(s: Sides, base: int, base': int, d: int, cmd: Cmd)
    requires Steady(s, base, base', d) && Sensible(s.store, cmd) && Servable(cmd)
    requires d + Cost(cmd) <= ARENA_SIZE
    ensures Alike(s, cmd) && Served(s, cmd).store == Effect(s.store, cmd, Allocates(cmd))
    ensures Steady(Served(s, cmd), base, base', d + Cost(cmd))
  {
    hide FFH.Heap.Valid, SegH.Heap.Valid, Used, Held, Sensible, Servable, Cost, Effect, NextEnv, FF.Served, Seg.Served;
    EnvHas(s.env, s.store, cmd);
    EnvHas(s.env', s.store, cmd);
    LeftStep(s.h, s.env, cmd);
    RightStep(s.g, s.env', cmd);
    KeysNext(s.env, s.store, cmd, Left(s, cmd).1);
    KeysNext(s.env', s.store, cmd, Right(s, cmd).1);
    SegH.BinCount(Right(s, cmd).0);
  }

  lemma EnvHas(env: Env, s: Store, cmd: Cmd)
    requires env.Keys == s.Keys && Sensible(s, cmd)
    ensures !cmd.New? && !cmd.NewZeroed? ==> cmd.id in env
  {
  }

  /** A trace whose demand fits in the arena is served in full by both machines, and leaves
      the store in which every allocation succeeded. */
  lemma {:induction false} ServedInFull(base: int, base': int, cmds: seq<Cmd>)
    requires ArenaAt(base) && ArenaAt(base') && Fair(cmds) && Demand(cmds) <= ARENA_SIZE
    ensures Agreed(Start(base, base'), cmds)
    ensures After(Start(base, base'), cmds).store == Ideal(cmds)
    ensures Steady(After(Start(base, base'), cmds), base, base', Demand(cmds))
    decreases |cmds|
  {
    hide Steady, Alike, Sensible, Servable, Cost, Effect;
    if cmds == [] {
      SteadyStart(base, base');
    } else {
      var n := |cmds| - 1;
      CostPositive(cmds[n]);
      ServedInFull(base, base', cmds[..n]);
      SteadyNext(After(Start(base, base'), cmds[..n]), base, base', Demand(cmds[..n]), cmds[n]);
    }
  }

  lemma SteadyStart(base: int, base': int)
    requires ArenaAt(base) && ArenaAt(base')
    ensures Steady(Start(base, base'), base, base', FIRST_PAD)
  {
  }
}
