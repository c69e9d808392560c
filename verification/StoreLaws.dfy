/** What a store holds after a trace, told by the commands themselves: which one wrote a cell
    last, and which one last gave a handle its length. */
module StoreLaws {
  import opened Memory
  import opened ClientStore

  predicate CellIs(s: Store, id: int, i: int, v: byte) {
    id in s && 0 <= i < |s[id]| && s[id][i] == Byte(v)
  }

  predicate LengthIs(s: Store, id: int, n: int) {
    id in s && |s[id]| == n
  }

  // --- one command ---------------------------------------------------------------

  /** The command gives cell i of the handle the byte v: a store of the client's, or a zeroed
      allocation that succeeded. */
  predicate Writes(cmd: Cmd, ok: bool, id: int, i: int, v: byte) {
    || cmd == Put(id, i, v)
    || (cmd.NewZeroed? && cmd.id == id && ok && 0 <= i < cmd.nmemb * cmd.size && v == 0)
  }

  /** It takes away what the cell held: another store, the end of the allocation, or a resize
      that succeeded to no more than i bytes. */
  predicate Disturbs(cmd: Cmd, ok: bool, id: int, i: int) {
    match cmd
    case Put(a, k, _) => a == id && k == i
    case Drop(a) => a == id
    case Resize(a, n) => a == id && (n == 0 || (ok && n <= i))
    case New(_, _) => false
    case NewZeroed(_, _, _) => false
  }

  /** It gives the handle n cells. */
  predicate Sizes(cmd: Cmd, ok: bool, id: int, n: int) {
    match cmd
    case New(a, size) => a == id && ok && n == size
    case NewZeroed(a, nmemb, size) => a == id && ok && n == nmemb * size
    case Resize(a, size) => a == id && ok && size != 0 && n == size
    case Drop(_) => false
    case Put(_, _, _) => false
  }

  /** It changes how many cells the handle has, or ends it. */
  predicate Resizes(cmd: Cmd, ok: bool, id: int) {
    match cmd
    case Drop(a) => a == id
    case Resize(a, n) => a == id && (n == 0 || ok)
    case New(_, _) => false
    case NewZeroed(_, _, _) => false
    case Put(_, _, _) => false
  }

  /** A resize that succeeds: exactly that many cells, those both lengths have as they were,
      the others unset, and no other handle touched. */
  lemma ResizeExact(s: Store, id: int, size: int)
    requires id in s && size > 0
    ensures var r := Effect(s, Resize(id, size), true);
            && r.Keys == s.Keys && |r[id]| == size
            && (forall i :: 0 <= i < size ==> r[id][i] == if i < |s[id]| then s[id][i] else Unset)
            && (forall a :: a in s && a != id ==> r[a] == s[a])
  {
  }

  /** A cell holds a byte after a command exactly when the command wrote it, or it was there
      and the command did not disturb it. */
  lemma CellNext(s: Store, cmd: Cmd, ok: bool, id: int, i: int, v: byte)
    requires Sensible(s, cmd)
    ensures CellIs(Effect(s, cmd, ok), id, i, v) <==>
            Writes(cmd, ok, id, i, v) || (CellIs(s, id, i, v) && !Disturbs(cmd, ok, id, i))
  {
  }

  lemma LengthNext(s: Store, cmd: Cmd, ok: bool, id: int, n: int)
    requires Sensible(s, cmd)
    ensures LengthIs(Effect(s, cmd, ok), id, n) <==>
            Sizes(cmd, ok, id, n) || (LengthIs(s, id, n) && !Resizes(cmd, ok, id))
  {
  }

  // --- whole traces ----------------------------------------------------------------

  /** Command k writes the cell and no later one disturbs it. */
  predicate LastWrite(cmds: seq<Cmd>, oks: seq<bool>, k: int, id: int, i: int, v: byte)
    requires |cmds| == |oks|
  {
    && 0 <= k < |cmds| && Writes(cmds[k], oks[k], id, i, v)
    && forall j :: k < j < |cmds| ==> !Disturbs(cmds[j], oks[j], id, i)
  }

  predicate LastSize(cmds: seq<Cmd>, oks: seq<bool>, k: int, id: int, n: int)
    requires |cmds| == |oks|
  {
    && 0 <= k < |cmds| && Sizes(cmds[k], oks[k], id, n)
    && forall j :: k < j < |cmds| ==> !Resizes(cmds[j], oks[j], id)
  }

  /** The store is what the commands say, `oks` telling which were answered with a pointer:
      a cell holds v exactly when the last command to touch it wrote v, and a handle has n
      cells exactly when the last command to size it gave it n. */
  ghost predicate Told(cmds: seq<Cmd>, oks: seq<bool>, s: Store) {
    && |cmds| == |oks|
    && (forall id, i, v :: CellIs(s, id, i, v) <==> exists k :: LastWrite(cmds, oks, k, id, i, v))
    && (forall id, n :: LengthIs(s, id, n) <==> exists k :: LastSize(cmds, oks, k, id, n))
  }

  lemma WriteNext(cmds: seq<Cmd>, oks: seq<bool>, cmd: Cmd, ok: bool, id: int, i: int, v: byte)
    requires |cmds| == |oks|
    ensures (exists k :: LastWrite(cmds + [cmd], oks + [ok], k, id, i, v)) <==>
            Writes(cmd, ok, id, i, v) || ((exists k :: LastWrite(cmds, oks, k, id, i, v)) && !Disturbs(cmd, ok, id, i))
  {
    hide Writes, Disturbs;
    var n, c, o := |cmds|, cmds + [cmd], oks + [ok];
    assert c[n] == cmd && o[n] == ok && forall j :: 0 <= j < n ==> c[j] == cmds[j] && o[j] == oks[j];
    if Writes(cmd, ok, id, i, v) { assert LastWrite(c, o, n, id, i, v); }
    forall k | 0 <= k < n
      ensures LastWrite(c, o, k, id, i, v) <==> LastWrite(cmds, oks, k, id, i, v) && !Disturbs(cmd, ok, id, i)
    {
    }
  }

  lemma SizeNext(cmds: seq<Cmd>, oks: seq<bool>, cmd: Cmd, ok: bool, id: int, n: int)
    requires |cmds| == |oks|
    ensures (exists k :: LastSize(cmds + [cmd], oks + [ok], k, id, n)) <==>
            Sizes(cmd, ok, id, n) || ((exists k :: LastSize(cmds, oks, k, id, n)) && !Resizes(cmd, ok, id))
  {
    hide Sizes, Resizes;
    var m, c, o := |cmds|, cmds + [cmd], oks + [ok];
    assert c[m] == cmd && o[m] == ok && forall j :: 0 <= j < m ==> c[j] == cmds[j] && o[j] == oks[j];
    if Sizes(cmd, ok, id, n) { assert LastSize(c, o, m, id, n); }
    forall k | 0 <= k < m
      ensures LastSize(c, o, k, id, n) <==> LastSize(cmds, oks, k, id, n) && !Resizes(cmd, ok, id)
    {
    }
  }

  lemma ToldNothing()
    ensures Told([], [], map[])
  {
  }

  lemma ToldNext(cmds: seq<Cmd>, oks: seq<bool>, s: Store, cmd: Cmd, ok: bool)
    requires Told(cmds, oks, s) && Sensible(s, cmd)
    ensures Told(cmds + [cmd], oks + [ok], Effect(s, cmd, ok))
  {
    hide CellIs, LengthIs, Writes, Sizes, Disturbs, Resizes, LastWrite, LastSize, Effect, Sensible;
    var c, o, r := cmds + [cmd], oks + [ok], Effect(s, cmd, ok);
    forall id, i, v ensures CellIs(r, id, i, v) <==> exists k :: LastWrite(c, o, k, id, i, v) {
      CellNext(s, cmd, ok, id, i, v);
      WriteNext(cmds, oks, cmd, ok, id, i, v);
    }
    forall id, n ensures LengthIs(r, id, n) <==> exists k :: LastSize(c, o, k, id, n) {
      LengthNext(s, cmd, ok, id, n);
      SizeNext(cmds, oks, cmd, ok, id, n);
    }
  }
}
