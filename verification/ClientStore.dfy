/** What a client may rely on, and why two allocators cannot be told apart.

    A view is all a client can see of an allocator: memory, and for each live
    pointer how many bytes it may use. Contract states malloc, calloc, realloc,
    free and an in-bounds store as relations between views. The main result is
    that two allocators that honour Contract hold the same bytes, wherever the
    trace defines them, after every trace both can serve.
 */
module ClientStore {
  import opened Memory
  import opened Layout
  import opened Format

  datatype View = View(mem: Bytes, live: map<int, int>) {
    /** Live payloads are aligned, in memory, and pairwise disjoint. */
    ghost predicate Valid() {
      && (forall p :: p in live ==> 0 < p && p % 16 == 0 && 0 < live[p] && p + live[p] <= |mem|)
      && (forall p, q :: p in live && q in live && p < q ==> p + live[p] <= q)
    }
  }

  datatype Call =
    | Malloc(size: int)
    | Calloc(nmemb: int, size: int)
    | Realloc(p: int, size: int)
    | Free(p: int)
    | Write(p: int, i: int, v: byte)

  /** Every live payload outside `except` is there in w with the same bytes. */
  ghost predicate OthersKept(v: View, w: View, except: set<int>) {
    forall p :: p in v.live && p !in except ==> SameBytes(v.mem, w.mem, p, v.live[p])
  }

  ghost predicate Allocated(v: View, size: int, r: int, w: View) {
    && OthersKept(v, w, {})
    && if r == 0 then w.live == v.live
       else r !in v.live && r in w.live && w.live[r] >= size && w.live == v.live[r := w.live[r]]
  }

  ghost predicate Released(v: View, p: int, w: View) {
    OthersKept(v, w, {p}) && w.live == v.live - {p}
  }

  ghost predicate Resized(v: View, p: int, size: int, r: int, w: View)
    requires p in v.live
  {
    if r == 0 then OthersKept(v, w, {}) && w.live == v.live
    else
      && OthersKept(v, w, {p})
      && (r == p || r !in v.live)
      && r in w.live && w.live[r] >= size && w.live == (v.live - {p})[r := w.live[r]]
      && Copied(v.mem, w.mem, p, r, if v.live[p] < size then v.live[p] else size)
  }

  /** What the client must respect. */
  ghost predicate Permitted(v: View, c: Call) {
    match c
    case Malloc(size) => 0 <= size
    case Calloc(nmemb, size) => 0 <= nmemb && 0 <= size
    case Realloc(p, size) => 0 <= size && (p == 0 || p in v.live)
    case Free(p) => p == 0 || p in v.live
    case Write(p, i, _) => p in v.live && 0 <= i < v.live[p]
  }

  /** What the allocator must deliver: result r and next view w. */
  ghost predicate Contract(v: View, c: Call, r: int, w: View)
    requires Permitted(v, c)
  {
    && w.Valid() && |w.mem| == |v.mem|
    && match c
       case Malloc(size) => Allocated(v, size, r, w)
       case Calloc(nmemb, size) =>
         && Allocated(v, nmemb * size, r, w)
         && (nmemb * size == 0 ==> r == 0)
         && (r != 0 ==> forall i :: r <= i < r + nmemb * size && 0 <= i < |w.mem| ==> w.mem[i] == 0)
       case Realloc(p, size) =>
         if p == 0 then Allocated(v, size, r, w)
         else if size == 0 then r == 0 && Released(v, p, w)
         else Resized(v, p, size, r, w)
       case Free(p) => r == 0 && if p == 0 then w.live == v.live && OthersKept(v, w, {}) else Released(v, p, w)
       case Write(p, i, x) => w.live == v.live && 0 <= p + i < |v.mem| && w.mem == v.mem[p + i := x]
  }

  // --- the store the client believes in -----------------------------------------

  datatype Cell = Unset | Byte(v: byte)

  /** Contents by handle; a cell is unset until the client or calloc writes it. */
  type Store = map<int, seq<Cell>>

  /** A trace names allocations by handle, since pointers differ between allocators. */
  datatype Cmd =
    | New(id: int, size: int)
    | NewZeroed(id: int, nmemb: int, size: int)
    | Resize(id: int, size: int)
    | Drop(id: int)
    | Put(id: int, i: int, v: byte)

  predicate Sensible(s: Store, cmd: Cmd) {
    match cmd
    case New(id, size) => id !in s && 0 <= size
    case NewZeroed(id, nmemb, size) => id !in s && 0 <= nmemb && 0 <= size
    case Resize(id, size) => id in s && 0 <= size
    case Drop(id) => id in s
    case Put(id, i, _) => id in s && 0 <= i < |s[id]|
  }

  function Fill(n: nat, c: Cell): seq<Cell> {
    seq(n, i => c)
  }

  /** The store after cmd, given whether a pointer came back. */
  function Effect(s: Store, cmd: Cmd, ok: bool): Store
    requires Sensible(s, cmd)
  {
    match cmd
    case New(id, size) => if ok then s[id := Fill(size, Unset)] else s
    case NewZeroed(id, nmemb, size) => if ok then s[id := Fill(nmemb * size, Byte(0))] else s
    case Resize(id, size) =>
      if size == 0 then s - {id}
      else if !ok then s
      else if size <= |s[id]| then s[id := s[id][..size]]
      else s[id := s[id] + Fill(size - |s[id]|, Unset)]
    case Drop(id) => s - {id}
    case Put(id, i, v) => s[id := s[id][i := Byte(v)]]
  }

  /** Where each handle's allocation is. */
  type Env = map<int, int>

  function CallOf(env: Env, cmd: Cmd): Call
    requires !cmd.New? && !cmd.NewZeroed? ==> cmd.id in env
  {
    match cmd
    case New(_, size) => Malloc(size)
    case NewZeroed(_, nmemb, size) => Calloc(nmemb, size)
    case Resize(id, size) => Realloc(env[id], size)
    case Drop(id) => Free(env[id])
    case Put(id, i, v) => Write(env[id], i, v)
  }

  function NextEnv(env: Env, cmd: Cmd, r: int): Env {
    match cmd
    case New(id, _) => if r == 0 then env else env[id := r]
    case NewZeroed(id, _, _) => if r == 0 then env else env[id := r]
    case Resize(id, size) => if size == 0 then env - {id} else if r == 0 then env else env[id := r]
    case Drop(id) => env - {id}
    case Put(_, _, _) => env
  }

  /** The cells of one allocation as found in memory at p. */
  ghost predicate Holds(m: Bytes, p: int, cells: seq<Cell>) {
    forall i :: 0 <= i < |cells| && cells[i].Byte? ==> 0 <= p + i < |m| && m[p + i] == cells[i].v
  }

  /** The view holds the store: distinct live pointers, room enough, right bytes. */
  ghost predicate Refines(v: View, env: Env, s: Store) {
    && v.Valid()
    && env.Keys == s.Keys
    && OneToOne(env)
    && (forall a :: a in env ==> env[a] in v.live && |s[a]| <= v.live[env[a]] && Holds(v.mem, env[a], s[a]))
  }

  ghost predicate OneToOne(env: Env) {
    forall a, b :: a in env && b in env && a != b ==> env[a] != env[b]
  }

  lemma HoldsSame(m: Bytes, r: Bytes, p: int, n: int, cells: seq<Cell>)
    requires |m| == |r| && Holds(m, p, cells) && |cells| <= n && SameBytes(m, r, p, n)
    ensures Holds(r, p, cells)
  {
    forall i | 0 <= i < |cells| && cells[i].Byte? ensures 0 <= p + i < |r| && r[p + i] == cells[i].v {
      assert m[p + i] == cells[i].v;
    }
  }

  /** The allocations of all handles but id are live in w, unchanged. */
  ghost predicate Survive(v: View, w: View, env: Env, id: int) {
    forall a :: a in env && a != id ==>
      && env[a] in v.live && env[a] in w.live && w.live[env[a]] == v.live[env[a]]
      && SameBytes(v.mem, w.mem, env[a], v.live[env[a]])
  }

  lemma RebindRefines(v: View, env: Env, s: Store, w: View, id: int, q: int, cells: seq<Cell>)
    requires Refines(v, env, s) && w.Valid() && |v.mem| == |w.mem| && Survive(v, w, env, id)
    requires q in w.live && |cells| <= w.live[q] && Holds(w.mem, q, cells)
    requires forall a :: a in env && a != id ==> env[a] != q
    ensures Refines(w, env[id := q], s[id := cells])
  {
    hide View.Valid, Holds, SameBytes;
    forall a | a in env && a != id ensures Holds(w.mem, env[a], s[a]) {
      HoldsSame(v.mem, w.mem, env[a], v.live[env[a]], s[a]);
    }
  }

  lemma DropRefines(v: View, env: Env, s: Store, w: View, id: int)
    requires Refines(v, env, s) && w.Valid() && |v.mem| == |w.mem| && Survive(v, w, env, id)
    ensures Refines(w, env - {id}, s - {id})
  {
    hide View.Valid, Holds, SameBytes;
    forall a | a in env && a != id ensures Holds(w.mem, env[a], s[a]) {
      HoldsSame(v.mem, w.mem, env[a], v.live[env[a]], s[a]);
    }
  }

  lemma SameRefines(v: View, env: Env, s: Store, w: View)
    requires Refines(v, env, s) && w.Valid() && |v.mem| == |w.mem|
    requires w.live == v.live && OthersKept(v, w, {})
    ensures Refines(w, env, s)
  {
    hide View.Valid, Holds, SameBytes, OneToOne;
    forall a | a in env ensures Holds(w.mem, env[a], s[a]) {
      HoldsSame(v.mem, w.mem, env[a], v.live[env[a]], s[a]);
    }
  }

  /** Growing or cutting the cells of an allocation that was copied. */
  lemma HoldsCopied(m: Bytes, r: Bytes, p: int, q: int, n: int, old_: seq<Cell>, new_: seq<Cell>)
    requires |m| == |r| && Holds(m, p, old_) && Copied(m, r, p, q, n) && 0 <= q && q + |new_| <= |r|
    requires forall i :: 0 <= i < |new_| && new_[i].Byte? ==> i < n && i < |old_| && new_[i] == old_[i]
    ensures Holds(r, q, new_)
  {
    forall i | 0 <= i < |new_| && new_[i].Byte? ensures r[q + i] == new_[i].v {
      assert m[p + i] == old_[i].v;
      assert r[q + i] == m[q + i - q + p];
    }
  }

  lemma NewRefines(v: View, env: Env, s: Store, id: int, size: int, cells: seq<Cell>, r: int, w: View)
    requires Refines(v, env, s) && id !in s && |cells| <= size
    requires w.Valid() && |v.mem| == |w.mem| && Allocated(v, size, r, w)
    requires r != 0 ==> Holds(w.mem, r, cells)
    ensures r == 0 ==> Refines(w, env, s)
    ensures r != 0 ==> Refines(w, env[id := r], s[id := cells])
  {
    hide View.Valid, Holds, SameBytes;
    if r == 0 {
      SameRefines(v, env, s, w);
    } else {
      RebindRefines(v, env, s, w, id, r, cells);
    }
  }

  lemma ResizeRefines(v: View, env: Env, s: Store, id: int, size: int, r: int, w: View)
    requires Refines(v, env, s) && id in s && size > 0 && r != 0
    requires w.Valid() && |v.mem| == |w.mem| && Resized(v, env[id], size, r, w)
    ensures Refines(w, env[id := r], Effect(s, Resize(id, size), true))
  {
    hide View.Valid, Holds, SameBytes, Copied;
    var cells := Effect(s, Resize(id, size), true)[id];
    var n := if v.live[env[id]] < size then v.live[env[id]] else size;
    LiveInside(w, r);
    HoldsCopied(v.mem, w.mem, env[id], r, n, s[id], cells);
    RebindRefines(v, env, s, w, id, r, cells);
  }

  lemma LiveInside(w: View, p: int)
    requires w.Valid() && p in w.live
    ensures 0 < p && p + w.live[p] <= |w.mem|
  {
  }

  lemma PutRefines(v: View, env: Env, s: Store, id: int, i: int, x: byte, w: View)
    requires Refines(v, env, s) && id in s && 0 <= i < |s[id]|
    requires w.Valid() && w.live == v.live && 0 <= env[id] + i < |v.mem| && w.mem == v.mem[env[id] + i := x]
    ensures Refines(w, env, s[id := s[id][i := Byte(x)]])
  {
    var p := env[id];
    forall a | a in env && a != id ensures SameBytes(v.mem, w.mem, env[a], v.live[env[a]]) {
      assert env[a] < p ==> env[a] + v.live[env[a]] <= p;
      assert p < env[a] ==> p + v.live[p] <= env[a];
    }
    assert Holds(w.mem, p, s[id][i := Byte(x)]);
    hide View.Valid, Holds, SameBytes;
    RebindRefines(v, env, s, w, id, p, s[id][i := Byte(x)]);
    assert env[id := p] == env;
  }

  /** One command keeps the refinement. */
  lemma StepRefines(v: View, env: Env, s: Store, cmd: Cmd, r: int, w: View)
    requires Refines(v, env, s) && Sensible(s, cmd)
    requires Permitted(v, CallOf(env, cmd)) && Contract(v, CallOf(env, cmd), r, w)
    ensures Refines(w, NextEnv(env, cmd, r), Effect(s, cmd, r != 0))
  {
    assert cmd.id in s ==> env[cmd.id] in v.live && env[cmd.id] != 0;
    hide View.Valid, SameBytes, Copied, Refines;
    match cmd
    case New(id, size) =>
      NewRefines(v, env, s, id, size, Fill(size, Unset), r, w);
    case NewZeroed(id, nmemb, size) =>
      if r != 0 {
        ZeroHolds(w, r, nmemb * size);
        NewRefines(v, env, s, id, nmemb * size, Fill(nmemb * size, Byte(0)), r, w);
      } else {
        SameRefines(v, env, s, w);
      }
    case Resize(id, size) =>
      if size == 0 {
        EnvSurvives(v, env, s, w, id);
        DropRefines(v, env, s, w, id);
      } else if r == 0 {
        SameRefines(v, env, s, w);
      } else {
        ResizeRefines(v, env, s, id, size, r, w);
      }
    case Drop(id) =>
      EnvSurvives(v, env, s, w, id);
      DropRefines(v, env, s, w, id);
    case Put(id, i, x) =>
      PutRefines(v, env, s, id, i, x, w);
  }

  lemma EnvSurvives(v: View, env: Env, s: Store, w: View, id: int)
    requires Refines(v, env, s) && id in env && Released(v, env[id], w)
    ensures Survive(v, w, env, id)
  {
  }

  lemma ZeroHolds(w: View, r: int, n: int)
    requires w.Valid() && r in w.live && 0 <= n <= w.live[r]
    requires forall i :: r <= i < r + n && 0 <= i < |w.mem| ==> w.mem[i] == 0
    ensures Holds(w.mem, r, Fill(n, Byte(0)))
  {
  }

  // --- whole runs ------------------------------------------------------------------

  /** One step of a run: the command, the pointer returned, the view after it. */
  datatype Event = Event(cmd: Cmd, r: int, view: View)

  /** evs is what an allocator that honours Contract did from view v on. */
  ghost predicate IsRun(v: View, env: Env, evs: seq<Event>)
    decreases |evs|
  {
    evs == [] ||
    (var e := evs[0];
     && (!e.cmd.New? && !e.cmd.NewZeroed? ==> e.cmd.id in env)
     && Permitted(v, CallOf(env, e.cmd)) && Contract(v, CallOf(env, e.cmd), e.r, e.view)
     && IsRun(e.view, NextEnv(env, e.cmd, e.r), evs[1..]))
  }

  ghost function LastView(v: View, evs: seq<Event>): View {
    if evs == [] then v else evs[|evs| - 1].view
  }

  ghost function LastEnv(env: Env, evs: seq<Event>): Env
    decreases |evs|
  {
    if evs == [] then env else LastEnv(NextEnv(env, evs[0].cmd, evs[0].r), evs[1..])
  }

  /** The store after a run, which depends only on the commands and on which
      allocations succeeded. */
  ghost predicate Stores(s: Store, evs: seq<Event>, t: Store)
    decreases |evs|
  {
    if evs == [] then s == t
    else Sensible(s, evs[0].cmd) && Stores(Effect(s, evs[0].cmd, evs[0].r != 0), evs[1..], t)
  }

  /** A run of any length keeps the refinement. */
  lemma {:induction false} RunRefines(v: View, env: Env, s: Store, evs: seq<Event>, t: Store)
    requires Refines(v, env, s) && IsRun(v, env, evs) && Stores(s, evs, t)
    ensures Refines(LastView(v, evs), LastEnv(env, evs), t)
    decreases |evs|
  {
    hide Refines, Contract;
    if evs != [] {
      var e := evs[0];
      StepRefines(v, env, s, e.cmd, e.r, e.view);
      RunRefines(e.view, NextEnv(env, e.cmd, e.r), Effect(s, e.cmd, e.r != 0), evs[1..], t);
    }
  }

  /** The same commands, with the same ones getting a pointer. */
  predicate SameTrace(evs: seq<Event>, fvs: seq<Event>) {
    && |evs| == |fvs|
    && forall i :: 0 <= i < |evs| ==> evs[i].cmd == fvs[i].cmd && (evs[i].r == 0 <==> fvs[i].r == 0)
  }

  lemma {:induction false} SameStores(s: Store, evs: seq<Event>, fvs: seq<Event>, t: Store)
    requires SameTrace(evs, fvs) && Stores(s, evs, t)
    ensures Stores(s, fvs, t)
    decreases |evs|
  {
    if evs != [] {
      SameStores(Effect(s, evs[0].cmd, evs[0].r != 0), evs[1..], fvs[1..], t);
    }
  }

  /** Memory m at p and memory n at q hold the same byte in every defined cell. */
  ghost predicate SameCells(m: Bytes, p: int, n: Bytes, q: int, cells: seq<Cell>) {
    forall i :: 0 <= i < |cells| && cells[i].Byte? ==>
      0 <= p + i < |m| && 0 <= q + i < |n| && m[p + i] == n[q + i] == cells[i].v
  }

  /** Two allocators that honour Contract, run on the same trace from nothing,
      hold the same handles live and the same byte in every defined cell. */
  lemma RunsAgree(v: View, w: View, evs: seq<Event>, fvs: seq<Event>, t: Store)
    requires v.Valid() && w.Valid() && v.live == map[] && w.live == map[]
    requires IsRun(v, map[], evs) && IsRun(w, map[], fvs)
    requires SameTrace(evs, fvs) && Stores(map[], evs, t)
    ensures LastEnv(map[], evs).Keys == LastEnv(map[], fvs).Keys == t.Keys
    ensures forall id :: id in t ==>
              SameCells(LastView(v, evs).mem, LastEnv(map[], evs)[id],
                LastView(w, fvs).mem, LastEnv(map[], fvs)[id], t[id])
  {
    assert Refines(v, map[], map[]) && Refines(w, map[], map[]);
    hide View.Valid, IsRun, LastView, LastEnv, Stores, SameTrace, Holds;
    RunRefines(v, map[], map[], evs, t);
    SameStores(map[], evs, fvs, t);
    RunRefines(w, map[], map[], fvs, t);
    forall id | id in t
      ensures SameCells(LastView(v, evs).mem, LastEnv(map[], evs)[id],
                LastView(w, fvs).mem, LastEnv(map[], fvs)[id], t[id])
    {
      BothHold(LastView(v, evs).mem, LastEnv(map[], evs)[id], LastView(w, fvs).mem, LastEnv(map[], fvs)[id], t[id]);
    }
  }

  lemma BothHold(m: Bytes, p: int, n: Bytes, q: int, cells: seq<Cell>)
    requires Holds(m, p, cells) && Holds(n, q, cells)
    ensures SameCells(m, p, n, q, cells)
  {
  }
}
