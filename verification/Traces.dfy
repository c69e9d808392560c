/** One trace, two allocators: what the client wrote is what it reads, in both. */
module Traces {
  import opened Memory
  import opened Layout
  import opened FreeLists
  import opened Bridge
  import opened ClientStore
  import opened StoreLaws
  import opened Machines
  import FF = FirstFit
  import FFH = FirstFitHeap
  import Seg = Segregated
  import SegH = SegregatedHeap

  /** The allocations of a and b do not overlap. */
  ghost predicate Separate(env: Env, store: Store, a: int, b: int)
    requires a in env && b in env && a in store && b in store
  {
    env[a] + |store[a]| <= env[b] || env[b] + |store[b]| <= env[a]
  }

  /** What two views of one store have in common: the same handles, each with room for as
      many bytes as were asked for, no two overlapping, and the same byte in every defined
      cell. */
  ghost predicate Agree(v: View, env: Env, w: View, env': Env, store: Store) {
    && env.Keys == env'.Keys == store.Keys
    && (forall id :: id in store ==>
          && env[id] in v.live && |store[id]| <= v.live[env[id]]
          && env'[id] in w.live && |store[id]| <= w.live[env'[id]]
          && SameCells(v.mem, env[id], w.mem, env'[id], store[id]))
    && (forall a, b :: a in store && b in store && a != b ==> Separate(env, store, a, b) && Separate(env', store, a, b))
  }

  /** The client reads v in cell i of the handle. */
  ghost predicate Reads(v: View, env: Env, id: int, i: int, x: byte) {
    id in env && 0 <= env[id] + i < |v.mem| && v.mem[env[id] + i] == x
  }

  /** Whatever was written last is read in both. */
  ghost predicate ReadBack(v: View, env: Env, w: View, env': Env, cmds: seq<Cmd>, oks: seq<bool>)
    requires |cmds| == |oks|
  {
    forall k, id, i, x :: LastWrite(cmds, oks, k, id, i, x) ==> Reads(v, env, id, i, x) && Reads(w, env', id, i, x)
  }

  lemma AgreeReads(v: View, env: Env, w: View, env': Env, store: Store, cmds: seq<Cmd>, oks: seq<bool>)
    requires Agree(v, env, w, env', store) && Told(cmds, oks, store)
    ensures ReadBack(v, env, w, env', cmds, oks)
  {
    hide LastWrite, LastSize;
    forall k, id, i, x | LastWrite(cmds, oks, k, id, i, x) ensures Reads(v, env, id, i, x) && Reads(w, env', id, i, x) {
      assert CellIs(store, id, i, x);
      assert SameCells(v.mem, env[id], w.mem, env'[id], store[id]);
    }
  }

  /** Why a run over a trace ended: it is over; the next command makes no sense or asks for
      too much; or one allocator answered it with a pointer and the other did not. */
  datatype Ending = Finished | NotSensible | ServedUnlike

  /** Both allocators are where the machines are. */
  ghost predicate At(ff: FF.Allocator, seg: Seg.Allocator, s: Sides)
    reads ff, ff.arena, ff.arena.mem, seg, seg.arena, seg.arena.mem
  {
    && ff.Valid() && seg.Valid()
    && ff.State() == s.h && seg.State() == s.g
    && Refines(ff.View(), s.env, s.store) && Refines(seg.View(), s.env', s.store)
  }

  /** After a command that one answered and the other did not, each stands for a store of
      its own. */
  ghost predicate Parted(ff: FF.Allocator, seg: Seg.Allocator, s: Sides, cmd: Cmd)
    reads ff, ff.arena, ff.arena.mem, seg, seg.arena, seg.arena.mem
  {
    && Ready(s, cmd) && !Alike(s, cmd)
    && ff.Valid() && seg.Valid()
    && ff.State() == Left(s, cmd).0 && seg.State() == Right(s, cmd).0
    && Refines(ff.View(), NextEnv(s.env, cmd, Left(s, cmd).1), Effect(s.store, cmd, Left(s, cmd).1 != 0))
    && Refines(seg.View(), NextEnv(s.env', cmd, Right(s, cmd).1), Effect(s.store, cmd, Right(s, cmd).1 != 0))
  }

  /** Runs a trace on a fresh first-fit and a fresh segregated allocator, for as long as the
      same allocations succeed in both. The allocators follow the two machines command by
      command; the run finishes exactly when the machines agree on the whole trace, and then,
      and whenever it stops before a command, their memories agree wherever the trace
      defines them. What the store holds is told by the commands: a cell has the byte the last
      command to touch it wrote, and that byte is read in both. */
  method RunBoth(base: int, base': int, cmds: seq<Cmd>)
    returns (ending: Ending, oks: seq<bool>, ff: FF.Allocator, seg: Seg.Allocator, env: Env, env': Env, store: Store)
    requires ArenaAt(base) && ArenaAt(base')
    ensures |oks| <= |cmds| && Agreed(Start(base, base'), cmds[..|oks|])
    ensures oks == Answers(Start(base, base'), cmds[..|oks|])
    ensures var s := After(Start(base, base'), cmds[..|oks|]);
            && env == s.env && env' == s.env' && store == s.store
            && (ending != ServedUnlike ==> At(ff, seg, s) && Agree(ff.View(), env, seg.View(), env', store))
            && (ending == NotSensible ==> |oks| < |cmds| && !(Sensible(store, cmds[|oks|]) && Servable(cmds[|oks|])))
            && (ending == ServedUnlike ==> |oks| < |cmds| && Parted(ff, seg, s, cmds[|oks|]))
    ensures Told(cmds[..|oks|], oks, store)
    ensures ending != ServedUnlike ==> ReadBack(ff.View(), env, seg.View(), env', cmds[..|oks|], oks)
    ensures ending == Finished <==> Agreed(Start(base, base'), cmds)
    ensures ending == Finished ==> |oks| == |cmds|
    ensures Fair(cmds) && Demand(cmds) <= ARENA_SIZE ==> ending == Finished && store == Ideal(cmds)
  {
    hide FFH.Heap.Valid, SegH.Heap.Valid, Refines, Agree, Effect, NextEnv, Sensible, Servable;
    hide FF.Allocator.Valid, Seg.Allocator.Valid, Alike, Ready, After, Agreed, Answers, Start, Fair, Demand, Parted, At;
    hide Told, ReadBack;
    ff := new FF.Allocator(base);
    seg := new Seg.Allocator(base');
    ending, oks, store, env, env' := Finished, [], map[], map[], map[];
    ghost var start := Start(base, base');
    ghost var s := start;
    assert cmds[..0] == [];
    Begin(base, base');
    StartsAt(ff, seg, base, base');
    ToldNothing();
    while |oks| < |cmds|
      invariant |oks| <= |cmds| && ending == Finished && fresh(ff) && fresh(seg)
      invariant fresh(ff.arena) && fresh(seg.arena) && fresh(ff.arena.mem) && fresh(seg.arena.mem)
      invariant ff.arena != seg.arena && ff.arena.mem != seg.arena.mem
      invariant Agreed(start, cmds[..|oks|]) && oks == Answers(start, cmds[..|oks|])
      invariant s == After(start, cmds[..|oks|]) && env == s.env && env' == s.env' && store == s.store
      invariant At(ff, seg, s)
      invariant Told(cmds[..|oks|], oks, store)
    {
      var cmd := cmds[|oks|];
      if !Sensible(store, cmd) || !Servable(cmd) {
        ending := NotSensible;
        NotReady(s, cmd);
        break;
      }
      var alike, r, r' := StepBoth(ff, seg, env, env', s, cmd);
      if !alike {
        ending := ServedUnlike;
        PartedApart(ff, seg, s, cmd);
        break;
      }
      OneMore(start, cmds, |oks|);
      ToldNext(cmds[..|oks|], oks, store, cmd, r != 0);
      assert cmds[..|oks| + 1] == cmds[..|oks|] + [cmd];
      env, env', store := NextEnv(env, cmd, r), NextEnv(env', cmd, r'), Effect(store, cmd, r != 0);
      s := Machines.Served(s, cmd);
      oks := oks + [r != 0];
    }
    if ending == Finished {
      assert cmds[..|oks|] == cmds;
    } else {
      Stopped(start, cmds, |oks|);
    }
    if ending != ServedUnlike {
      AtAgrees(ff, seg, s);
      AgreeReads(ff.View(), env, seg.View(), env', store, cmds[..|oks|], oks);
    }
    if Fair(cmds) && Demand(cmds) <= ARENA_SIZE {
      ServedInFull(base, base', cmds);
    }
  }

  lemma Begin(base: int, base': int)
    requires ArenaAt(base) && ArenaAt(base')
    ensures var s := Start(base, base');
            && Agreed(s, []) && Answers(s, []) == [] && After(s, []) == s
            && s.env == map[] && s.env' == map[] && s.store == map[]
  {
  }

  lemma NotReady(s: Sides, cmd: Cmd)
    requires !Sensible(s.store, cmd) || !Servable(cmd)
    ensures !Alike(s, cmd)
  {
  }

  lemma Stopped(s: Sides, cmds: seq<Cmd>, k: int)
    requires 0 <= k < |cmds| && !Alike(After(s, cmds[..k]), cmds[k])
    ensures !Agreed(s, cmds)
  {
    hide Alike, After, Agreed;
    if Agreed(s, cmds) { AgreedPrefix(s, cmds, k); }
  }

  lemma PartedApart(ff: FF.Allocator, seg: Seg.Allocator, s: Sides, cmd: Cmd)
    requires Parted(ff, seg, s, cmd)
    ensures !Alike(s, cmd)
  {
  }

  lemma StartsAt(ff: FF.Allocator, seg: Seg.Allocator, base: int, base': int)
    requires ArenaAt(base) && ArenaAt(base')
    requires ff.Valid() && ff.State() == FFH.Empty(base) && seg.Valid() && seg.State() == SegH.Empty(base')
    ensures At(ff, seg, Start(base, base'))
  {
    hide FFH.Heap.Valid, SegH.Heap.Valid, Refines;
    StartRefines(ff.arena.mem[..], ff.arena.blocks);
    StartRefines(seg.arena.mem[..], seg.arena.blocks);
  }

  /** One command on both allocators, which are where the machines are: they follow the
      machines, and stay together if those do. */
  method StepBoth(ff: FF.Allocator, seg: Seg.Allocator, env: Env, env': Env, ghost s: Sides, cmd: Cmd)
    returns (alike: bool, r: int, r': int)
    requires At(ff, seg, s) && ff.arena != seg.arena && ff.arena.mem != seg.arena.mem
    requires env == s.env && env' == s.env' && Sensible(s.store, cmd) && Servable(cmd)
    modifies ff.arena, ff.arena.mem, seg, seg.arena, seg.arena.mem
    ensures Ready(s, cmd) && r == Left(s, cmd).1 && r' == Right(s, cmd).1
    ensures alike == Alike(s, cmd)
    ensures if alike then At(ff, seg, Machines.Served(s, cmd)) else Parted(ff, seg, s, cmd)
  {
    hide FFH.Heap.Valid, SegH.Heap.Valid, Refines, Contract, Effect, NextEnv, FF.Served, Seg.Served;
    hide Sensible, Servable, Permitted, FF.Allocator.InRange, Seg.Allocator.InRange, ViewOf;
    hide FF.Allocator.Valid, Seg.Allocator.Valid;
    ghost var v, w := ff.View(), seg.View();
    EnvKeys(v, env, s.store, cmd);
    EnvKeys(w, env', s.store, cmd);
    FirstFitServes(ff, env, cmd);
    SegregatedServes(seg, env', cmd);
    r := ff.Perform(CallOf(env, cmd));
    r' := seg.Perform(CallOf(env', cmd));
    alike := (r == 0) == (r' == 0);
    StepRefines(v, env, s.store, cmd, r, ff.View());
    StepRefines(w, env', s.store, cmd, r', seg.View());
  }

  lemma StartRefines(m: seq<byte>, L: Blocks)
    requires L == map[]
    ensures Refines(ViewOf(m, Used(L)), map[], map[])
  {
    var U := Used(L);
    forall p ensures p !in LiveOf(U) { LiveAt(U, p); }
  }

  /** A sensible command on a refined store makes a permitted call. */
  lemma EnvKeys(v: View, env: Env, s: Store, cmd: Cmd)
    requires Refines(v, env, s) && Sensible(s, cmd)
    ensures !cmd.New? && !cmd.NewZeroed? ==> cmd.id in env
    ensures Permitted(v, CallOf(env, cmd))
  {
  }

  lemma FirstFitServes(a: FF.Allocator, env: Env, cmd: Cmd)
    requires a.Valid() && Servable(cmd) && (!cmd.New? && !cmd.NewZeroed? ==> cmd.id in env)
    ensures |a.arena.lists| == 1 && a.InRange(CallOf(env, cmd))
  {
    hide FFH.Heap.Valid, Need;
    LeftBreak(a.State());
    SizesFit(a.State().Top(), cmd) by { TopBelow(a.arena.base, a.arena.arenaCur); }
  }

  lemma SegregatedServes(a: Seg.Allocator, env: Env, cmd: Cmd)
    requires a.Valid() && Servable(cmd) && (!cmd.New? && !cmd.NewZeroed? ==> cmd.id in env)
    ensures |a.State().bins| == SegH.NUM_BINS && a.InRange(CallOf(env, cmd))
  {
    hide SegH.Heap.Valid, Need;
    RightBreak(a.State());
    SizesFit(a.State().Top(), cmd) by { TopBelow(a.arena.base, a.arena.arenaCur); }
  }

  lemma SizesFit(top: int, cmd: Cmd)
    requires Servable(cmd) && top <= USER_LIMIT
    ensures cmd.New? || cmd.Resize? ==> Requestable(top, cmd.size)
    ensures cmd.NewZeroed? && cmd.nmemb * cmd.size > 0 ==> Requestable(top, cmd.nmemb * cmd.size)
  {
    hide Need;
    match cmd
    case New(_, size) => NeedFits(size, top);
    case NewZeroed(_, nmemb, size) => if nmemb * size > 0 { NeedFits(nmemb * size, top); }
    case Resize(_, size) => NeedFits(size, top);
    case Drop(_) =>
    case Put(_, _, _) =>
  }

  lemma AtAgrees(ff: FF.Allocator, seg: Seg.Allocator, s: Sides)
    requires At(ff, seg, s)
    ensures Agree(ff.View(), s.env, seg.View(), s.env', s.store)
  {
    hide FF.Allocator.Valid, Seg.Allocator.Valid, Refines, Agree;
    BothRefine(ff.View(), s.env, seg.View(), s.env', s.store);
  }

  lemma BothRefine(v: View, env: Env, w: View, env': Env, s: Store)
    requires Refines(v, env, s) && Refines(w, env', s)
    ensures Agree(v, env, w, env', s)
  {
    hide View.Valid, Holds, SameCells, Separate, OneToOne;
    forall id | id in s ensures SameCells(v.mem, env[id], w.mem, env'[id], s[id]) {
      BothHold(v.mem, env[id], w.mem, env'[id], s[id]);
    }
    forall a, b | a in s && b in s && a != b ensures Separate(env, s, a, b) && Separate(env', s, a, b) {
      KeptApart(v, env, s, a, b);
      KeptApart(w, env', s, a, b);
    }
  }

  lemma KeptApart(v: View, env: Env, s: Store, a: int, b: int)
    requires Refines(v, env, s) && a in s && b in s && a != b
    ensures Separate(env, s, a, b)
  {
    assert env[a] != env[b];
  }
}
