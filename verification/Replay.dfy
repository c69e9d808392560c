/** bench/analyze_trace.py: replaying an allocation log, and how its byte counts relate
    to those the segregated allocator keeps while the log is written. */
module Replay {
  import opened Layout
  import opened FreeLists
  import opened SegregatedHeap

  /** A log record, as the driver's wrappers write it. */
  datatype Event =
    | LogMalloc(size: int, p: int)
    | LogCalloc(size: int, p: int)
    | LogFree(p: int)
    | LogRealloc(old_: int, size: int, new_: int)

  /** chunk_of: what the design charges for a request. */
  function ChunkOf(size: int): (r: int)
    ensures size >= 0 ==> size + OVERHEAD <= r < size + OVERHEAD + 16 && r >= MIN_BLOCK
  {
    (size + 8 + 15) / 16 * 16
  }

  /** The replayer's running state. */
  datatype Stats = Stats(live: map<int, int>, liveReq: int, liveReal: int,
                         peakReq: int, peakReal: int, unknownFree: int, failed: int)

  const START := Stats(map[], 0, 0, 0, 0, 0, 0)

  function Added(s: Stats, p: int, size: int): Stats {
    s.(live := s.live[p := size], liveReq := s.liveReq + size, liveReal := s.liveReal + ChunkOf(size))
  }

  function Removed(s: Stats, p: int): Stats {
    if p in s.live then
      s.(live := s.live - {p}, liveReq := s.liveReq - s.live[p], liveReal := s.liveReal - ChunkOf(s.live[p]))
    else s.(unknownFree := s.unknownFree + 1)
  }

  function Peaks(s: Stats): Stats {
    s.(peakReq := if s.liveReq > s.peakReq then s.liveReq else s.peakReq,
       peakReal := if s.liveReal > s.peakReal then s.liveReal else s.peakReal)
  }

  /** One record. A realloc removes the old pointer and adds the new one before peaks
      are looked at. */
  function Step(s: Stats, e: Event): Stats {
    match e
    case LogMalloc(size, p) => if p == 0 then s.(failed := s.failed + 1) else Peaks(Added(s, p, size))
    case LogCalloc(size, p) => if p == 0 then s.(failed := s.failed + 1) else Peaks(Added(s, p, size))
    case LogFree(p) => Peaks(Removed(s, p))
    case LogRealloc(old_, size, new_) =>
      var t := if old_ != 0 then Removed(s, old_) else s;
      Peaks(if new_ != 0 then Added(t, new_, size)
            else if size != 0 then t.(failed := t.failed + 1)
            else t)
  }

  function Fold(s: Stats, log: seq<Event>): Stats {
    if log == [] then s else Step(Fold(s, log[..|log| - 1]), log[|log| - 1])
  }

  /** The variables of main, updated record by record. */
  class Replayer {
    var live: map<int, int>
    var liveReq: int
    var liveReal: int
    var peakReq: int
    var peakReal: int
    var unknownFree: int
    var failed: int

    ghost function State(): Stats
      reads this
    {
      Stats(live, liveReq, liveReal, peakReq, peakReal, unknownFree, failed)
    }

    constructor ()
      ensures State() == START
    {
      live, liveReq, liveReal, peakReq, peakReal, unknownFree, failed := map[], 0, 0, 0, 0, 0, 0;
    }

    method Add(p: int, size: int)
      modifies this
      ensures State() == Added(old(State()), p, size)
    {
      live := live[p := size];
      liveReq := liveReq + size;
      liveReal := liveReal + ChunkOf(size);
    }

    method Remove(p: int)
      modifies this
      ensures State() == Removed(old(State()), p)
    {
      if p !in live {
        unknownFree := unknownFree + 1;
        return;
      }
      var size := live[p];
      live := live - {p};
      liveReq := liveReq - size;
      liveReal := liveReal - ChunkOf(size);
    }

    method Take(e: Event)
      modifies this
      ensures State() == Step(old(State()), e)
    {
      hide Added, Removed, Peaks;
      match e {
        case LogMalloc(size, p) =>
          if p == 0 { failed := failed + 1; return; }
          Add(p, size);
        case LogCalloc(size, p) =>
          if p == 0 { failed := failed + 1; return; }
          Add(p, size);
        case LogFree(p) =>
          Remove(p);
        case LogRealloc(old_, size, new_) =>
          if old_ != 0 { Remove(old_); }
          if new_ != 0 { Add(new_, size); } else if size != 0 { failed := failed + 1; }
      }
      NotePeaks();
    }

    method NotePeaks()
      modifies this
      ensures State() == Peaks(old(State()))
    {
      if liveReq > peakReq { peakReq := liveReq; }
      if liveReal > peakReal { peakReal := liveReal; }
    }
  }

  /** The event loop of main. */
  method Analyze(log: seq<Event>) returns (s: Stats)
    ensures s == Fold(START, log)
    ensures Reported(log, s)
  {
    hide Step, Reported;
    var r := new Replayer();
    for i := 0 to |log|
      invariant fresh(r) && r.State() == Fold(START, log[..i])
    {
      assert log[..i + 1][..i] == log[..i];
      r.Take(log[i]);
    }
    assert log[..|log|] == log;
    s := Stats(r.live, r.liveReq, r.liveReal, r.peakReq, r.peakReal, r.unknownFree, r.failed);
    FoldReported(log);
  }

  // --- what the numbers mean -------------------------------------------------------------

  /** Whether a record takes a pointer away, which one, and the pointer it hands out. */
  predicate Removes(e: Event) {
    e.LogFree? || (e.LogRealloc? && e.old_ != 0)
  }

  function Dropped(e: Event): int
    requires Removes(e)
  {
    if e.LogFree? then e.p else e.old_
  }

  function Given(e: Event): int {
    match e
    case LogMalloc(_, p) => p
    case LogCalloc(_, p) => p
    case LogFree(_) => 0
    case LogRealloc(_, _, new_) => new_
  }

  /** A request that got nothing: a realloc to no bytes is none. */
  predicate Fails(e: Event) {
    !e.LogFree? && Given(e) == 0 && (e.LogRealloc? ==> e.size != 0)
  }

  function Less(live: map<int, int>, e: Event): map<int, int> {
    if Removes(e) then live - {Dropped(e)} else live
  }

  /** The pointers a log leaves live, with the sizes asked for. */
  function LiveAfter(log: seq<Event>): map<int, int> {
    if log == [] then map[]
    else
      var e := log[|log| - 1];
      var left := Less(LiveAfter(log[..|log| - 1]), e);
      if Given(e) != 0 && !e.LogFree? then left[Given(e) := e.size] else left
  }

  /** The record hands out a pointer that is still live. */
  predicate Repeats(live: map<int, int>, e: Event) {
    Given(e) != 0 && Given(e) in Less(live, e)
  }

  /** It takes away a pointer that is not live. */
  predicate Unknown(live: map<int, int>, e: Event) {
    Removes(e) && Dropped(e) !in live
  }

  /** f over the sizes that were overwritten in this way. */
  function Twice(log: seq<Event>, f: int -> int): int {
    if log == [] then 0
    else
      var n := |log| - 1;
      var live := LiveAfter(log[..n]);
      Twice(log[..n], f) + if Repeats(live, log[n]) then f(Less(live, log[n])[Given(log[n])]) else 0
  }

  /** Bytes asked for by what a log leaves live, and bytes charged for it. A pointer handed
      out while still live counts again. */
  ghost function Requested(log: seq<Event>): int {
    Asked(LiveAfter(log)) + Twice(log, x => x)
  }

  ghost function Charged(log: seq<Event>): int {
    Charge(LiveAfter(log)) + Twice(log, ChunkOf)
  }

  /** f after each record. */
  ghost function History(log: seq<Event>, f: seq<Event> -> int): seq<int> {
    if log == [] then [] else History(log[..|log| - 1], f) + [f(log)]
  }

  function FailedAt(log: seq<Event>): set<int> {
    set i | 0 <= i < |log| && Fails(log[i])
  }

  function UnknownAt(log: seq<Event>): set<int> {
    set i | 0 <= i < |log| && Unknown(LiveAfter(log[..i]), log[i])
  }

  /** What the script reports about a log, without the script: the peaks are the highest
      values over all its prefixes. */
  ghost predicate Reported(log: seq<Event>, s: Stats) {
    && s.live == LiveAfter(log)
    && s.liveReq == Requested(log) && s.liveReal == Charged(log)
    && s.peakReq == Highest(0, History(log, Requested))
    && s.peakReal == Highest(0, History(log, Charged))
    && s.failed == |FailedAt(log)| && s.unknownFree == |UnknownAt(log)|
  }

  lemma SumSet(live: map<int, int>, f: int -> int, p: int, n: int)
    ensures SumOf(live[p := n], f) + (if p in live then f(live[p]) else 0) == f(n) + SumOf(live, f)
  {
    hide SumOf;
    SumDrop(live, f, p);
    SumIn(live - {p}, f, p, n);
    assert (live - {p})[p := n] == live[p := n];
  }

  lemma SumDrop(live: map<int, int>, f: int -> int, p: int)
    ensures SumOf(live - {p}, f) + (if p in live then f(live[p]) else 0) == SumOf(live, f)
  {
    hide SumOf;
    if p in live { SumOut(live, f, p); } else { assert live - {p} == live; }
  }

  /** The live bytes, whatever they are counted by, change with a record as the script
      says. */
  lemma LiveNext(log: seq<Event>, f: int -> int)
    requires log != []
    ensures var n := |log| - 1;
            var e, live := log[n], LiveAfter(log[..n]);
            SumOf(LiveAfter(log), f) + Twice(log, f) ==
            SumOf(live, f) + Twice(log[..n], f)
            - (if Removes(e) && Dropped(e) in live then f(live[Dropped(e)]) else 0)
            + (if Given(e) != 0 then f(e.size) else 0)
  {
    hide SumOf;
    var n := |log| - 1;
    var e, live := log[n], LiveAfter(log[..n]);
    if Removes(e) { SumDrop(live, f, Dropped(e)); }
    if Given(e) != 0 { SumSet(Less(live, e), f, Given(e), e.size); }
  }

  lemma FailedNext(log: seq<Event>)
    requires log != []
    ensures var n := |log| - 1; |FailedAt(log)| == |FailedAt(log[..n])| + if Fails(log[n]) then 1 else 0
  {
    hide Fails;
    var n := |log| - 1;
    assert FailedAt(log) == FailedAt(log[..n]) + if Fails(log[n]) then {n} else {};
  }

  lemma UnknownNext(log: seq<Event>)
    requires log != []
    ensures var n := |log| - 1;
            |UnknownAt(log)| == |UnknownAt(log[..n])| + if Unknown(LiveAfter(log[..n]), log[n]) then 1 else 0
  {
    hide Unknown, LiveAfter;
    var n := |log| - 1;
    assert forall i :: 0 <= i < n ==> log[..n][..i] == log[..i];
    assert UnknownAt(log) == UnknownAt(log[..n]) + if Unknown(LiveAfter(log[..n]), log[n]) then {n} else {};
  }

  lemma HighestNext(log: seq<Event>, f: seq<Event> -> int)
    requires log != []
    ensures var before := Highest(0, History(log[..|log| - 1], f));
            Highest(0, History(log, f)) == if f(log) > before then f(log) else before
  {
    var old_ := History(log[..|log| - 1], f);
    HighestConcat(0, old_, [f(log)]);
    assert [f(log)][1..] == [];
  }

  /** One record, number by number. */
  lemma StepIs(s: Stats, e: Event)
    requires s.liveReq <= s.peakReq && s.liveReal <= s.peakReal
    ensures var t := Step(s, e);
            var known := Removes(e) && Dropped(e) in s.live;
            && t.live == (if Given(e) != 0 && !e.LogFree? then Less(s.live, e)[Given(e) := e.size] else Less(s.live, e))
            && t.liveReq == s.liveReq - (if known then s.live[Dropped(e)] else 0)
                            + (if Given(e) != 0 then e.size else 0)
            && t.liveReal == s.liveReal - (if known then ChunkOf(s.live[Dropped(e)]) else 0)
                             + (if Given(e) != 0 then ChunkOf(e.size) else 0)
            && t.peakReq == (if t.liveReq > s.peakReq then t.liveReq else s.peakReq)
            && t.peakReal == (if t.liveReal > s.peakReal then t.liveReal else s.peakReal)
            && t.failed == s.failed + (if Fails(e) then 1 else 0)
            && t.unknownFree == s.unknownFree + (if Removes(e) && !known then 1 else 0)
  {
    hide ChunkOf;
    if Removes(e) && Dropped(e) !in s.live { assert s.live - {Dropped(e)} == s.live; }
  }

  /** For every log: the script's numbers are those. */
  lemma {:induction false} FoldReported(log: seq<Event>)
    ensures Reported(log, Fold(START, log))
    ensures Fold(START, log).liveReq <= Fold(START, log).peakReq
    ensures Fold(START, log).liveReal <= Fold(START, log).peakReal
  {
    hide SumOf, Twice, Highest, History, FailedAt, UnknownAt, Step, ChunkOf;
    if log == [] {
      NothingReported();
    } else {
      var n := |log| - 1;
      FoldReported(log[..n]);
      StepIs(Fold(START, log[..n]), log[n]);
      LiveNext(log, x => x);
      LiveNext(log, ChunkOf);
      FailedNext(log);
      UnknownNext(log);
      HighestNext(log, Requested);
      HighestNext(log, Charged);
    }
  }

  /** No record hands out a pointer that is still live. */
  predicate Clean(log: seq<Event>) {
    forall i :: 0 <= i < |log| ==> !Repeats(LiveAfter(log[..i]), log[i])
  }

  predicate Unsigned(log: seq<Event>) {
    forall i :: 0 <= i < |log| && !log[i].LogFree? ==> log[i].size >= 0
  }

  /** The live counts are those of the live pointers exactly for clean logs. */
  lemma CleanExact(log: seq<Event>)
    requires Unsigned(log)
    ensures Charged(log) == Charge(LiveAfter(log)) <==> Clean(log)
    ensures Clean(log) ==> Requested(log) == Asked(LiveAfter(log))
  {
    hide SumOf, Twice, Clean, LiveAfter, ChunkOf;
    TwiceExact(log);
  }

  lemma {:induction false} TwiceExact(log: seq<Event>)
    requires Unsigned(log)
    ensures Twice(log, ChunkOf) >= 0 && (Twice(log, ChunkOf) == 0 <==> Clean(log))
    ensures Clean(log) ==> Twice(log, x => x) == 0
  {
    hide ChunkOf, LiveAfter, Clean;
    if log == [] {
      CleanNothing();
    } else {
      var n := |log| - 1;
      TwiceExact(log[..n]);
      CleanNext(log);
      LiveSizes(log[..n]);
      ChunkPositive();
    }
  }

  lemma CleanNothing()
    ensures Clean([])
  {
  }

  lemma CleanNext(log: seq<Event>)
    requires log != []
    ensures var n := |log| - 1; Clean(log) <==> Clean(log[..n]) && !Repeats(LiveAfter(log[..n]), log[n])
  {
    hide Repeats, LiveAfter;
    var n := |log| - 1;
    assert forall i :: 0 <= i < n ==> log[..n][..i] == log[..i] && log[..n][i] == log[i];
  }

  lemma {:induction false} LiveSizes(log: seq<Event>)
    requires Unsigned(log)
    ensures forall p :: p in LiveAfter(log) ==> LiveAfter(log)[p] >= 0
  {
    if log != [] { LiveSizes(log[..|log| - 1]); }
  }

  lemma ChunkPositive()
    ensures forall size :: size >= 0 ==> ChunkOf(size) > 0
  {
  }

  /** A log that hands out one pointer twice: it is live once, with 8 bytes, and 16 are
      reported. */
  lemma GivenTwice(p: int)
    requires p != 0
    ensures var log := [LogMalloc(8, p), LogMalloc(8, p)];
            && LiveAfter(log) == map[p := 8]
            && Fold(START, log).liveReq == 16 && Fold(START, log).peakReq == 16
  {
    var e := LogMalloc(8, p);
    assert [e, e][..1] == [e] && [e][..0] == [];
    assert Fold(START, []) == START && LiveAfter([]) == map[];
    assert Fold(START, [e]) == Step(START, e) && LiveAfter([e]) == map[p := 8];
  }

  lemma NothingReported()
    ensures Reported([], START) && Requested([]) == 0 && Charged([]) == 0
  {
    ChargePositive(map[]);
    assert SumOf(map[], x => x) == 0;
  }

  // --- what the driver logs -----------------------------------------------------------

  datatype Request = Malloc(size: int) | Calloc(nmemb: int, size: int) | Realloc(p: int, size: int) | Free(p: int)

  ghost predicate Allowed(h: Heap, r: Request) {
    match r
    case Malloc(size) => |h.bins| == NUM_BINS && Requestable(h.Top(), size)
    case Calloc(nmemb, size) =>
      && 0 <= nmemb < SIZE_LIMIT && 0 <= size < SIZE_LIMIT && |h.bins| == NUM_BINS
      && (0 < nmemb * size < SIZE_LIMIT ==> Requestable(h.Top(), nmemb * size))
    case Realloc(p, size) =>
      && SegregatedHeap.Allowed(h, OpRealloc(p, size))
      && (p == 0 || size != 0 ==> Requestable(h.Top(), size))
    case Free(p) => SegregatedHeap.Allowed(h, OpFree(p))
  }

  /** The wrappers w_malloc, w_calloc, w_realloc and w_free: the call and its record. A
      null free is not recorded; the calloc record holds the product in 64 bits. */
  ghost function Serve(h: Heap, r: Request): (Heap, seq<Event>)
    requires Allowed(h, r)
  {
    match r
    case Malloc(size) =>
      var (g, p) := SegregatedHeap.Malloc(h, size);
      (g, [LogMalloc(size, p)])
    case Calloc(nmemb, size) =>
      if 0 < nmemb * size < SIZE_LIMIT then
        var (g, p) := SegregatedHeap.Malloc(h, nmemb * size);
        (g, [LogCalloc(nmemb * size, p)])
      else (h, [LogCalloc(nmemb * size % SIZE_LIMIT, 0)])
    case Realloc(p, size) =>
      var (g, q) := SegregatedHeap.Realloc(h, p, size);
      (g, [LogRealloc(p, size, q)])
    case Free(p) => (SegregatedHeap.Free(h, p), if p == 0 then [] else [LogFree(p)])
  }

  // --- agreement -----------------------------------------------------------------------

  /** Sum over a set of allocations of f of the requested size. */
  ghost function SumOf(live: map<int, int>, f: int -> int): int
    decreases |live|
  {
    if p :| p in live then f(live[p]) + SumOf(live - {p}, f) else 0
  }

  /** Bytes charged for, and bytes asked for. */
  ghost function Charge(live: map<int, int>): int {
    SumOf(live, ChunkOf)
  }

  ghost function Asked(live: map<int, int>): int {
    SumOf(live, x => x)
  }

  lemma {:induction false} SumOut(live: map<int, int>, f: int -> int, p: int)
    requires p in live
    ensures SumOf(live, f) == f(live[p]) + SumOf(live - {p}, f)
    decreases |live|
  {
    var q :| q in live && SumOf(live, f) == f(live[q]) + SumOf(live - {q}, f);
    if q != p {
      SumOut(live - {q}, f, p);
      SumOut(live - {p}, f, q);
      assert live - {q} - {p} == live - {p} - {q};
    }
  }

  lemma SumIn(live: map<int, int>, f: int -> int, p: int, n: int)
    requires p !in live
    ensures SumOf(live[p := n], f) == f(n) + SumOf(live, f)
  {
    SumOut(live[p := n], f, p);
    assert live[p := n] - {p} == live;
  }

  lemma SomeKey(live: map<int, int>) returns (p: int)
    requires live != map[]
    ensures p in live
  {
    if forall q :: q !in live { NoKeys(live); }
    p :| p in live;
  }

  lemma NoKeys(live: map<int, int>)
    requires forall p :: p !in live
    ensures live == map[]
  {
    var none: map<int, int> := map[];
    assert forall p :: p in live <==> p in none;
  }

  lemma {:induction false} ChargePositive(live: map<int, int>)
    requires forall p :: p in live ==> live[p] >= 0
    ensures Charge(live) >= 0 && (Charge(live) == 0 <==> live == map[])
    ensures Asked(live) <= Charge(live)
    decreases |live|
  {
    if live != map[] {
      var p := SomeKey(live);
      SumOut(live, ChunkOf, p);
      SumOut(live, x => x, p);
      ChargePositive(live - {p});
    }
  }

  /** How the replayer's state s and the heap h that is writing the log relate. `lost`
      holds the allocations the replayer dropped at a failed realloc while the allocator
      kept them: the two live counts differ by exactly their bytes. */
  ghost predicate Tracks(h: Heap, s: Stats, lost: map<int, int>) {
    && s.live.Keys !! lost.Keys
    && 0 !in s.live && 0 !in lost
    && (forall p :: p in s.live ==>
          s.live[p] >= 0 && p - 4 in Used(h.blocks) && Used(h.blocks)[p - 4].size == ChunkOf(s.live[p]))
    && (forall p :: p in lost ==>
          lost[p] >= 0 && p - 4 in Used(h.blocks) && Used(h.blocks)[p - 4].size == ChunkOf(lost[p]))
    && (forall a :: a in Used(h.blocks) ==> a + 4 in s.live || a + 4 in lost)
    && s.liveReq == Asked(s.live) && s.liveReal == Charge(s.live)
    && h.live == s.liveReal + Charge(lost)
    && s.liveReq <= s.peakReq && s.liveReal <= s.peakReal
    && s.peakReq <= s.peakReal <= h.peak
  }

  /** What becomes of `lost` when request r is served, h being the heap before. */
  ghost function NextLost(h: Heap, s: Stats, lost: map<int, int>, r: Request): map<int, int>
    requires Allowed(h, r)
  {
    match r
    case Malloc(_) => lost
    case Calloc(_, _) => lost
    case Free(p) => lost - {p}
    case Realloc(p, size) =>
      if p != 0 && size != 0 && SegregatedHeap.Realloc(h, p, size).1 == 0
      then (if p in s.live then lost[p := s.live[p]] else lost)
      else lost - {p}
  }

  lemma ChunkIsNeed(size: int)
    requires 0 <= size && size + 23 < SIZE_LIMIT
    ensures Need(size) == ChunkOf(size)
  {
  }

  lemma AddTracks(h: Heap, g: Heap, s: Stats, lost: map<int, int>, p: int, size: int)
    requires h.Valid() && Tracks(h, s, lost) && size >= 0
    requires p != 0 && Gained(h, g, p, ChunkOf(size))
    ensures Tracks(g, Peaks(Added(s, p, size)), lost)
  {
    hide Heap.Valid, SumOf, Used, ChunkOf;
    LiveBelowPeak(g);
    ChargePositive(lost);
    PayloadAway(h, s, lost, p);
    SumIn(s.live, ChunkOf, p, size);
    SumIn(s.live, x => x, p, size);
    ChargePositive(s.live[p := size]);
  }

  lemma PayloadAway(h: Heap, s: Stats, lost: map<int, int>, p: int)
    requires Tracks(h, s, lost) && p - 4 !in Used(h.blocks)
    ensures p !in s.live && p !in lost
  {
  }

  lemma MallocTracks(h: Heap, s: Stats, lost: map<int, int>, size: int)
    requires h.Valid() && |h.bins| == NUM_BINS && Tracks(h, s, lost) && Requestable(h.Top(), size)
    ensures var (g, p) := SegregatedHeap.Malloc(h, size);
            && g.Valid()
            && Tracks(g, if p == 0 then s.(failed := s.failed + 1) else Peaks(Added(s, p, size)), lost)
  {
    hide Heap.Valid, SegregatedHeap.Malloc, Need, Tracks, Used, ChunkOf;
    ChunkIsNeed(size);
    MallocGained(h, size);
    var (g, p) := SegregatedHeap.Malloc(h, size);
    if p == 0 {
      StillTracks(h, g, s, s.(failed := s.failed + 1), lost);
    } else {
      AddTracks(h, g, s, lost, p, size);
    }
  }

  /** Nothing the relation looks at has changed. */
  lemma StillTracks(h: Heap, g: Heap, s: Stats, t: Stats, lost: map<int, int>)
    requires Tracks(h, s, lost)
    requires g.blocks == h.blocks && g.live == h.live && g.peak == h.peak
    requires t == s.(failed := t.failed, unknownFree := t.unknownFree)
    ensures Tracks(g, t, lost)
  {
  }

  lemma FreeTracks(h: Heap, s: Stats, lost: map<int, int>, p: int)
    requires h.Valid() && |h.bins| == NUM_BINS && Tracks(h, s, lost) && p != 0
    ensures SegregatedHeap.Free(h, p).Valid()
    ensures Tracks(SegregatedHeap.Free(h, p), Peaks(Removed(s, p)), lost - {p})
  {
    hide Heap.Valid, SumOf, Used, SegregatedHeap.Free, ChunkOf;
    FreeValid(h, p);
    UsedAt(h.blocks, p - 4);
    LiveBelowPeak(SegregatedHeap.Free(h, p));
    DropTracks(h, s, lost, p);
    ChargePositive(lost - {p});
    ChargePositive(s.live - {p});
  }

  /** Taking p out of whichever side knows it. */
  lemma DropTracks(h: Heap, s: Stats, lost: map<int, int>, p: int)
    requires Tracks(h, s, lost)
    ensures Removed(s, p).live == s.live - {p}
    ensures Removed(s, p).liveReq == Asked(s.live - {p}) && Removed(s, p).liveReal == Charge(s.live - {p})
    ensures Charge(s.live - {p}) + Charge(lost - {p}) ==
            h.live - (if p - 4 in Used(h.blocks) then Used(h.blocks)[p - 4].size else 0)
  {
    hide SumOf, Used, ChunkOf;
    if p in s.live {
      SumOut(s.live, ChunkOf, p);
      SumOut(s.live, x => x, p);
      assert lost - {p} == lost;
    } else {
      assert s.live - {p} == s.live;
      if p in lost {
        SumOut(lost, ChunkOf, p);
      } else {
        assert lost - {p} == lost;
        assert (p - 4) + 4 == p;
      }
    }
  }

  /** realloc of a live pointer, whether the replayer still knows it or not. */
  lemma ReallocTracks(h: Heap, s: Stats, lost: map<int, int>, p: int, size: int)
    requires h.Valid() && |h.bins| == NUM_BINS && Tracks(h, s, lost)
    requires p != 0 && size > 0 && p - 4 in Used(h.blocks) && Requestable(h.Top(), size)
    ensures var (g, q) := SegregatedHeap.Realloc(h, p, size);
            && g.Valid()
            && (q != 0 ==> Tracks(g, Peaks(Added(Removed(s, p), q, size)), lost - {p}))
            && (q == 0 ==>
                  Tracks(g, Peaks(Removed(s, p).(failed := Removed(s, p).failed + 1)),
                         if p in s.live then lost[p := s.live[p]] else lost))
  {
    hide Heap.Valid, SumOf, Used, SegregatedHeap.Realloc, ChunkOf, Need, Tracks;
    ChunkIsNeed(size);
    UsedAt(h.blocks, p - 4);
    ReallocResized(h, p, size);
    var (g, q) := SegregatedHeap.Realloc(h, p, size);
    if q != 0 {
      MoveTracks(h, g, s, lost, p, q, size);
    } else if p in s.live {
      LoseTracks(h, g, s, lost, p);
    } else {
      PeaksDone(h, s, lost);
      StillTracks(h, g, s, Peaks(Removed(s, p).(failed := Removed(s, p).failed + 1)), lost);
    }
  }

  /** The peaks already cover the present state. */
  lemma PeaksDone(h: Heap, s: Stats, lost: map<int, int>)
    requires Tracks(h, s, lost)
    ensures Peaks(s) == s
  {
  }

  lemma MoveTracks(h: Heap, g: Heap, s: Stats, lost: map<int, int>, p: int, q: int, size: int)
    requires Tracks(h, s, lost) && p != 0 && q != 0 && size > 0 && p - 4 in h.blocks && p - 4 in Used(h.blocks)
    requires Used(h.blocks)[p - 4] == h.blocks[p - 4]
    requires SegregatedHeap.Resized(h, p, g, q, ChunkOf(size))
    ensures Tracks(g, Peaks(Added(Removed(s, p), q, size)), lost - {p})
  {
    hide Heap.Valid, SumOf, Used, ChunkOf;
    DropTracks(h, s, lost, p);
    PayloadAway(h, s, lost, q);
    LiveBelowPeak(g);
    SumIn(s.live - {p}, ChunkOf, q, size);
    SumIn(s.live - {p}, x => x, q, size);
    ChargePositive((s.live - {p})[q := size]);
    ChargePositive(lost - {p});
  }

  lemma LoseTracks(h: Heap, g: Heap, s: Stats, lost: map<int, int>, p: int)
    requires Tracks(h, s, lost) && p in s.live
    requires g.blocks == h.blocks && g.live == h.live && g.peak == h.peak
    ensures Tracks(g, Peaks(Removed(s, p).(failed := Removed(s, p).failed + 1)), lost[p := s.live[p]])
  {
    hide SumOf, Used, ChunkOf;
    SumOut(s.live, ChunkOf, p);
    SumOut(s.live, x => x, p);
    SumIn(lost, ChunkOf, p, s.live[p]);
    ChargePositive(s.live - {p});
    ChargePositive(lost[p := s.live[p]]);
  }

  lemma FoldOne(s: Stats, e: Event)
    ensures Fold(s, [e]) == Step(s, e)
  {
    assert [e][..0] == [];
  }

  /** Serving one request keeps the two in step. */
  lemma ServeTracks(h: Heap, s: Stats, lost: map<int, int>, r: Request)
    requires h.Valid() && Tracks(h, s, lost) && Allowed(h, r)
    ensures Serve(h, r).0.Valid()
    ensures Tracks(Serve(h, r).0, Fold(s, Serve(h, r).1), NextLost(h, s, lost, r))
  {
    hide Heap.Valid, Tracks, SegregatedHeap.Malloc, SegregatedHeap.Free, SegregatedHeap.Realloc, Need, Used, Peaks,
      Added, Removed;
    match r
    case Malloc(size) =>
      MallocTracks(h, s, lost, size);
      FoldOne(s, LogMalloc(size, SegregatedHeap.Malloc(h, size).1));
    case Calloc(nmemb, size) =>
      if 0 < nmemb * size < SIZE_LIMIT {
        MallocTracks(h, s, lost, nmemb * size);
        FoldOne(s, LogCalloc(nmemb * size, SegregatedHeap.Malloc(h, nmemb * size).1));
      } else {
        FoldOne(s, LogCalloc(nmemb * size % SIZE_LIMIT, 0));
        StillTracks(h, h, s, s.(failed := s.failed + 1), lost);
      }
    case Realloc(p, size) =>
      ServeRealloc(h, s, lost, p, size);
    case Free(p) =>
      if p == 0 {
        NullFree(h, s, lost);
      } else {
        FreeTracks(h, s, lost, p);
        FoldOne(s, LogFree(p));
      }
  }

  lemma NullFree(h: Heap, s: Stats, lost: map<int, int>)
    requires |h.bins| == NUM_BINS && Tracks(h, s, lost)
    ensures SegregatedHeap.Free(h, 0) == h && Fold(s, []) == s && lost - {0} == lost
  {
  }

  lemma ServeRealloc(h: Heap, s: Stats, lost: map<int, int>, p: int, size: int)
    requires h.Valid() && Tracks(h, s, lost) && Allowed(h, Realloc(p, size))
    ensures SegregatedHeap.Realloc(h, p, size).0.Valid()
    ensures Tracks(SegregatedHeap.Realloc(h, p, size).0,
                   Fold(s, [LogRealloc(p, size, SegregatedHeap.Realloc(h, p, size).1)]),
                   NextLost(h, s, lost, Realloc(p, size)))
  {
    hide Heap.Valid, Tracks, SegregatedHeap.Malloc, SegregatedHeap.Free, SegregatedHeap.Realloc, Need, Used, Peaks,
      Added, Removed, Fold;
    ReallocByCase(h, p, size);
    FoldOne(s, LogRealloc(p, size, SegregatedHeap.Realloc(h, p, size).1));
    if p == 0 {
      NullRealloc(h, s, lost, size);
    } else if size == 0 {
      FreeTracks(h, s, lost, p);
    } else {
      ReallocTracks(h, s, lost, p, size);
    }
  }

  lemma NullRealloc(h: Heap, s: Stats, lost: map<int, int>, size: int)
    requires h.Valid() && |h.bins| == NUM_BINS && Tracks(h, s, lost) && Requestable(h.Top(), size)
    ensures var (g, q) := SegregatedHeap.Malloc(h, size);
            g.Valid() && Tracks(g, Step(s, LogRealloc(0, size, q)), lost - {0})
  {
    hide Heap.Valid, Tracks, SegregatedHeap.Malloc, SegregatedHeap.Free, Need, Used, Added, Removed;
    MallocTracks(h, s, lost, size);
    NullFree(h, s, lost);
    PeaksDone(h, s, lost);
    var (g, q) := SegregatedHeap.Malloc(h, size);
    if q == 0 {
      PeaksFailed(s);
      StillTracks(g, g, s.(failed := s.failed + 1), s, lost);
    }
  }

  lemma PeaksFailed(s: Stats)
    ensures Peaks(s.(failed := s.failed + 1)) == Peaks(s).(failed := s.failed + 1)
  {
  }

  lemma ReallocByCase(h: Heap, p: int, size: int)
    requires Allowed(h, Realloc(p, size))
    ensures p == 0 ==> SegregatedHeap.Realloc(h, p, size) == SegregatedHeap.Malloc(h, size)
    ensures p != 0 && size == 0 ==> SegregatedHeap.Realloc(h, p, size) == (SegregatedHeap.Free(h, p), 0)
  {
  }

  // --- whole runs ------------------------------------------------------------------------

  ghost predicate AllAllowed(h: Heap, rs: seq<Request>)
    decreases |rs|
  {
    rs == [] || (Allowed(h, rs[0]) && AllAllowed(Serve(h, rs[0]).0, rs[1..]))
  }

  /** The heap after a run, and the log the run wrote. */
  ghost function Final(h: Heap, rs: seq<Request>): Heap
    requires AllAllowed(h, rs)
    decreases |rs|
  {
    if rs == [] then h else Final(Serve(h, rs[0]).0, rs[1..])
  }

  ghost function Log(h: Heap, rs: seq<Request>): seq<Event>
    requires AllAllowed(h, rs)
    decreases |rs|
  {
    if rs == [] then [] else Serve(h, rs[0]).1 + Log(Serve(h, rs[0]).0, rs[1..])
  }

  /** What the replayer has lost sight of after a run. */
  ghost function Lost(h: Heap, s: Stats, lost: map<int, int>, rs: seq<Request>): map<int, int>
    requires AllAllowed(h, rs)
    decreases |rs|
  {
    if rs == [] then lost
    else Lost(Serve(h, rs[0]).0, Fold(s, Serve(h, rs[0]).1), NextLost(h, s, lost, rs[0]), rs[1..])
  }

  ghost predicate NoFailedRealloc(h: Heap, rs: seq<Request>)
    requires AllAllowed(h, rs)
    decreases |rs|
  {
    rs == [] ||
    (&& (rs[0].Realloc? && rs[0].p != 0 && rs[0].size != 0 ==> SegregatedHeap.Realloc(h, rs[0].p, rs[0].size).1 != 0)
     && NoFailedRealloc(Serve(h, rs[0]).0, rs[1..]))
  }

  lemma {:induction false} FoldConcat(s: Stats, a: seq<Event>, b: seq<Event>)
    ensures Fold(s, a + b) == Fold(Fold(s, a), b)
    decreases |b|
  {
    if b == [] {
      assert a + b == a;
    } else {
      var n := |b| - 1;
      assert (a + b)[..|a + b| - 1] == a + b[..n];
      FoldConcat(s, a, b[..n]);
    }
  }

  lemma {:induction false} RunTracks(h: Heap, s: Stats, lost: map<int, int>, rs: seq<Request>)
    requires h.Valid() && Tracks(h, s, lost) && AllAllowed(h, rs)
    ensures Final(h, rs).Valid()
    ensures Tracks(Final(h, rs), Fold(s, Log(h, rs)), Lost(h, s, lost, rs))
    decreases |rs|
  {
    hide Heap.Valid, Tracks, Serve, Allowed, Fold, NextLost;
    if rs != [] {
      var (g, log) := Serve(h, rs[0]);
      ServeTracks(h, s, lost, rs[0]);
      RunTracks(g, Fold(s, log), NextLost(h, s, lost, rs[0]), rs[1..]);
      FoldConcat(s, log, Log(g, rs[1..]));
    } else {
      FoldNone(s);
    }
  }

  lemma FoldNone(s: Stats)
    ensures Fold(s, []) == s
  {
  }

  lemma StillNothing(h: Heap, s: Stats, r: Request)
    requires Allowed(h, r)
    requires r.Realloc? && r.p != 0 && r.size != 0 ==> SegregatedHeap.Realloc(h, r.p, r.size).1 != 0
    ensures NextLost(h, s, map[], r) == map[]
  {
  }

  lemma {:induction false} NothingLost(h: Heap, s: Stats, rs: seq<Request>)
    requires AllAllowed(h, rs) && NoFailedRealloc(h, rs)
    ensures Lost(h, s, map[], rs) == map[]
    decreases |rs|
  {
    hide Serve, Fold, Allowed, SegregatedHeap.Realloc;
    if rs != [] {
      StillNothing(h, s, rs[0]);
      NothingLost(Serve(h, rs[0]).0, Fold(s, Serve(h, rs[0]).1), rs[1..]);
    }
  }

  /** Replaying the complete log of any run of the segregated allocator. The replayer's
      live bytes fall short of the allocator's by exactly what failed reallocs made it
      forget; they are equal if and only if nothing forgotten is still allocated, which
      is so whenever no realloc failed. Its peaks never exceed the allocator's. No pointer is
      handed out twice in such a log, so the counts are those of the live pointers. */
  lemma ReplayAgrees(base: int, rs: seq<Request>)
    requires ArenaAt(base) && AllAllowed(Empty(base), rs)
    ensures var h, s := Final(Empty(base), rs), Fold(START, Log(Empty(base), rs));
            var lost := Lost(Empty(base), START, map[], rs);
            && h.live == s.liveReal + Charge(lost)
            && (h.live == s.liveReal <==> lost == map[])
            && (NoFailedRealloc(Empty(base), rs) ==> lost == map[])
            && s.peakReq <= s.peakReal <= h.peak
            && Clean(Log(Empty(base), rs))
  {
    hide Heap.Valid, AllAllowed, Final, Log, Lost, Fold, NoFailedRealloc, SumOf, LiveAfter, Clean, Used;
    StartTracks(base);
    RunTracks(Empty(base), START, map[], rs);
    ChargePositive(Lost(Empty(base), START, map[], rs));
    if NoFailedRealloc(Empty(base), rs) {
      NothingLost(Empty(base), START, rs);
    }
    FoldReported(Log(Empty(base), rs));
    LogUnsigned(Empty(base), rs);
    CleanExact(Log(Empty(base), rs));
  }

  lemma {:induction false} LogUnsigned(h: Heap, rs: seq<Request>)
    requires AllAllowed(h, rs)
    ensures Unsigned(Log(h, rs))
    decreases |rs|
  {
    if rs != [] {
      LogUnsigned(Serve(h, rs[0]).0, rs[1..]);
      ServeUnsigned(h, rs[0]);
      hide Serve, Allowed;
    }
  }

  lemma ServeUnsigned(h: Heap, r: Request)
    requires Allowed(h, r)
    ensures Unsigned(Serve(h, r).1)
  {
    hide SegregatedHeap.Malloc, SegregatedHeap.Free, SegregatedHeap.Realloc, Need, Used;
  }

  lemma StartTracks(base: int)
    requires ArenaAt(base)
    ensures Empty(base).Valid() && Tracks(Empty(base), START, map[])
  {
    ChargePositive(map[]);
    assert Asked(map[]) == 0;
  }

  /** A malloc of 8 bytes and a realloc to 4 GiB, which fails: the replayer counts nothing
      live, the allocator the 16 bytes it kept. */
  lemma Orphaned(base: int)
    requires ArenaAt(base)
    ensures var rs := [Request.Malloc(8), Request.Realloc(base + 16, TAG_LIMIT)];
            && AllAllowed(Empty(base), rs)
            && Lost(Empty(base), START, map[], rs) == map[base + 16 := 8]
            && Final(Empty(base), rs).live == 16
            && Fold(START, Log(Empty(base), rs)).liveReal == 0
  {
    hide Fold, Step, Serve, Allowed, NextLost;
    var h := Empty(base);
    var r1, r2 := Request.Malloc(8), Request.Realloc(base + 16, TAG_LIMIT);
    var e1, e2 := LogMalloc(8, base + 16), LogRealloc(base + 16, TAG_LIMIT, 0);
    EightServed(base);
    GiantRefused(base);
    TwoServed(h, r1, r2);
    FoldOne(START, e1);
    var s := Fold(START, [e1]);
    FoldOne(s, e2);
    EightFolded(base);
    FoldConcat(START, [e1], [e2]);
  }

  lemma TwoServed(h: Heap, r1: Request, r2: Request)
    requires Allowed(h, r1) && Allowed(Serve(h, r1).0, r2)
    ensures AllAllowed(h, [r1, r2])
    ensures var (g, log) := Serve(h, r1);
            && Final(h, [r1, r2]) == Serve(g, r2).0
            && Log(h, [r1, r2]) == log + Serve(g, r2).1
            && Lost(h, START, map[], [r1, r2]) == NextLost(g, Fold(START, log), NextLost(h, START, map[], r1), r2)
  {
    hide Fold, Serve, Allowed, NextLost;
    var g := Serve(h, r1).0;
    assert [r1, r2][1..] == [r2] && [r2][1..] == [];
    assert AllAllowed(g, [r2]) && Final(g, [r2]) == Serve(g, r2).0;
    assert Log(g, [r2]) == Serve(g, r2).1 + [];
    var s, lost := Fold(START, Serve(h, r1).1), NextLost(h, START, map[], r1);
    assert Lost(g, s, lost, [r2]) == NextLost(g, s, lost, r2);
  }

  lemma EightServed(base: int)
    requires ArenaAt(base)
    ensures var a := base + FIRST_PAD;
            && Allowed(Empty(base), Request.Malloc(8))
            && Serve(Empty(base), Request.Malloc(8))
               == (Heap(base, map[a := Block(16, true, true)], Empty(base).bins, a + 16, 16, 16),
                 [LogMalloc(8, base + 16)])
            && NextLost(Empty(base), START, map[], Request.Malloc(8)) == map[]
  {
    assert Need(8) == 16;
  }

  lemma GiantRefused(base: int)
    requires ArenaAt(base)
    ensures var a := base + FIRST_PAD;
            var g := Heap(base, map[a := Block(16, true, true)], Empty(base).bins, a + 16, 16, 16);
            && Allowed(g, Request.Realloc(base + 16, TAG_LIMIT))
            && Serve(g, Request.Realloc(base + 16, TAG_LIMIT)) == (g, [LogRealloc(base + 16, TAG_LIMIT, 0)])
            && forall s: Stats :: s.live == map[base + 16 := 8] ==>
                 NextLost(g, s, map[], Request.Realloc(base + 16, TAG_LIMIT)) == map[base + 16 := 8]
  {
    assert Need(TAG_LIMIT) == TAG_LIMIT + 16;
  }

  lemma EightFolded(base: int)
    ensures var s := Step(START, LogMalloc(8, base + 16));
            base + 16 != 0 ==>
              && s.live == map[base + 16 := 8]
              && Step(s, LogRealloc(base + 16, TAG_LIMIT, 0)).liveReal == 0
  {
  }
}
