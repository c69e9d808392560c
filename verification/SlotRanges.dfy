/** Cluster slot ranges: sorting, merging, validating, comparing and appending.

    qsort is a library routine that fixes no order among equal keys, so every result
    here is about *any* sorted permutation of the array.
 */
module SlotRanges {

  const CLUSTER_SLOTS: int := 16384
  const USHORT: int := 65536

  type ushort = x: int | 0 <= x < 65536

  datatype SlotRange = SlotRange(start: ushort, end: ushort)

  datatype Verdict =
    | Ok
    | BadCount(n: int)
    | OutOfRange(start: int, end: int)
    | Reversed(start: int, end: int)
    | Repeated(slot: int)

  predicate Holds(r: SlotRange, x: int) { r.start <= x <= r.end }

  /** How many of the ranges hold slot x. */
  function Count(a: seq<SlotRange>, x: int): nat {
    if a == [] then 0 else Count(a[..|a| - 1], x) + if Holds(a[|a| - 1], x) then 1 else 0
  }

  predicate Covered(a: seq<SlotRange>, x: int) {
    exists i :: 0 <= i < |a| && Holds(a[i], x)
  }

  predicate WellFormed(a: seq<SlotRange>) {
    forall i :: 0 <= i < |a| ==> a[i].start <= a[i].end
  }

  predicate InBounds(a: seq<SlotRange>) {
    forall i :: 0 <= i < |a| ==> a[i].start < CLUSTER_SLOTS && a[i].end < CLUSTER_SLOTS
  }

  predicate Disjoint(a: seq<SlotRange>) {
    forall i, j :: 0 <= i < j < |a| ==> a[i].end < a[j].start || a[j].end < a[i].start
  }

  /** Increasing ranges with a gap between neighbours. */
  predicate Canonical(a: seq<SlotRange>) {
    && WellFormed(a)
    && forall i, j :: 0 <= i < j < |a| ==> a[i].end + 1 < a[j].start
  }

  predicate Sorted(a: seq<SlotRange>) {
    forall i, j :: 0 <= i < j < |a| ==> a[i].start <= a[j].start
  }

  /** What qsort promises about its result. */
  ghost predicate SortedPerm(a: seq<SlotRange>, q: seq<SlotRange>) {
    Sorted(q) && multiset(a) == multiset(q)
  }

  /** One step of the merging loop. */
  function Appending(m: seq<SlotRange>, r: SlotRange): seq<SlotRange>
    requires m != []
  {
    var k := |m| - 1;
    if m[k].end + 1 == r.start then m[..k] + [SlotRange(m[k].start, r.end)] else m + [r]
  }

  /** Glue each range to the one before it when it starts right after that one's end. */
  function Merge(q: seq<SlotRange>): (m: seq<SlotRange>)
    ensures |m| <= |q| && (q != [] ==> m != [] && m[|m| - 1].end == q[|q| - 1].end)
  {
    if |q| <= 1 then q else Appending(Merge(q[..|q| - 1]), q[|q| - 1])
  }

  /** r is what sort-and-merge may leave of a. */
  ghost predicate Normal(a: seq<SlotRange>, r: seq<SlotRange>) {
    exists q :: SortedPerm(a, q) && r == Merge(q)
  }

  // ---- counting -------------------------------------------------------------

  lemma {:induction false} CountAppend(a: seq<SlotRange>, b: seq<SlotRange>, x: int)
    ensures Count(a + b, x) == Count(a, x) + Count(b, x)
  {
    if b == [] {
      assert a + b == a;
    } else {
      CountAppend(a, b[..|b| - 1], x);
      assert (a + b)[..|a + b| - 1] == a + b[..|b| - 1];
    }
  }

  lemma CountWithout(b: seq<SlotRange>, k: int, x: int)
    requires 0 <= k < |b|
    ensures Count(b, x) == Count(b[..k] + b[k + 1..], x) + if Holds(b[k], x) then 1 else 0
  {
    var front := b[..k + 1];
    assert b == front + b[k + 1..];
    CountAppend(front, b[k + 1..], x);
    CountAppend(b[..k], b[k + 1..], x);
    assert front[..|front| - 1] == b[..k];
  }

  lemma MultisetWithout(b: seq<SlotRange>, k: int)
    requires 0 <= k < |b|
    ensures multiset(b[..k] + b[k + 1..]) == multiset(b) - multiset{b[k]}
  {
    assert b == b[..k] + [b[k]] + b[k + 1..];
  }

  lemma {:induction false} CountPermuted(a: seq<SlotRange>, b: seq<SlotRange>, x: int)
    requires multiset(a) == multiset(b)
    ensures Count(a, x) == Count(b, x)
    decreases |a|
  {
    assert |multiset(a)| == |a| && |multiset(b)| == |b|;
    if a != [] {
      var n := |a| - 1;
      assert a[n] in multiset(b);
      var k :| 0 <= k < |b| && b[k] == a[n];
      MultisetWithout(a, n);
      MultisetWithout(b, k);
      CountPermuted(a[..n] + a[n + 1..], b[..k] + b[k + 1..], x);
      CountWithout(a, n, x);
      CountWithout(b, k, x);
    }
  }

  lemma {:induction false} CountCovered(a: seq<SlotRange>, x: int)
    ensures Count(a, x) > 0 <==> Covered(a, x)
  {
    if a != [] {
      var a0 := a[..|a| - 1];
      CountCovered(a0, x);
      if Covered(a0, x) {
        var i :| 0 <= i < |a0| && Holds(a0[i], x);
        assert Holds(a[i], x);
      }
    }
  }

  /** Ranges that share no slot count each slot at most once, and conversely. */
  lemma {:induction false} CountDisjoint(a: seq<SlotRange>, x: int)
    requires Disjoint(a)
    ensures Count(a, x) <= 1
  {
    if a != [] {
      var n := |a| - 1;
      CountDisjoint(a[..n], x);
      CountCovered(a[..n], x);
      if Covered(a[..n], x) {
        var i :| 0 <= i < n && Holds(a[..n][i], x);
        assert a[i].end < a[n].start || a[n].end < a[i].start;
      }
    }
  }

  lemma CountTwice(a: seq<SlotRange>, i: int, j: int, x: int)
    requires 0 <= i < j < |a| && Holds(a[i], x) && Holds(a[j], x)
    ensures Count(a, x) >= 2
  {
    var l := a[..j];
    assert l[i] == a[i];
    CountCovered(l, x);
    assert a[..j + 1][..j] == l && a[..j + 1][j] == a[j];
    assert a == a[..j + 1] + a[j + 1..];
    CountAppend(a[..j + 1], a[j + 1..], x);
  }

  lemma OnceDisjoint(a: seq<SlotRange>)
    requires WellFormed(a) && forall x :: Count(a, x) <= 1
    ensures Disjoint(a)
  {
    forall i, j | 0 <= i < j < |a|
      ensures a[i].end < a[j].start || a[j].end < a[i].start
    {
      var x := if a[i].start <= a[j].start then a[j].start else a[i].start;
      assert Count(a, x) <= 1;
      if Holds(a[i], x) && Holds(a[j], x) {
        CountTwice(a, i, j, x);
      }
    }
  }

  // ---- merging --------------------------------------------------------------

  lemma WellFormedSnoc(a: seq<SlotRange>, r: SlotRange)
    ensures WellFormed(a + [r]) <==> WellFormed(a) && r.start <= r.end
  {
    assert (a + [r])[|a|] == r;
    assert forall i :: 0 <= i < |a| ==> (a + [r])[i] == a[i];
  }

  lemma CountSnoc(a: seq<SlotRange>, r: SlotRange, x: int)
    ensures Count(a + [r], x) == Count(a, x) + if Holds(r, x) then 1 else 0
  {
    assert (a + [r])[..|a|] == a;
  }

  lemma CoveredSnoc(a: seq<SlotRange>, r: SlotRange, x: int)
    ensures Covered(a + [r], x) <==> Covered(a, x) || Holds(r, x)
  {
    assert (a + [r])[|a|] == r;
    assert forall i :: 0 <= i < |a| ==> (a + [r])[i] == a[i];
  }

  lemma CanonicalSnoc(a: seq<SlotRange>, r: SlotRange)
    ensures Canonical(a + [r]) <==>
            Canonical(a) && r.start <= r.end && (a != [] ==> a[|a| - 1].end + 1 < r.start)
  {
    hide WellFormed;
    WellFormedSnoc(a, r);
    var b := a + [r];
    assert b[|a|] == r && forall i :: 0 <= i < |a| ==> b[i] == a[i];
    if Canonical(a) && r.start <= r.end && (a != [] ==> a[|a| - 1].end + 1 < r.start) {
      forall i | 0 <= i < |a| ensures a[i].end + 1 < r.start { EndBefore(a, i); }
    }
    if Canonical(b) {
      assert a != [] ==> b[|a| - 1].end + 1 < b[|a|].start;
    }
  }

  lemma EndBefore(a: seq<SlotRange>, i: int)
    requires Canonical(a) && 0 <= i < |a|
    ensures a[i].end <= a[|a| - 1].end
  {}

  lemma {:induction false} MergeCounts(q: seq<SlotRange>, x: int)
    requires WellFormed(q)
    ensures WellFormed(Merge(q)) && Count(Merge(q), x) == Count(q, x)
  {
    hide WellFormed, Count;
    if |q| > 1 {
      var n := |q| - 1;
      assert q == q[..n] + [q[n]];
      WellFormedSnoc(q[..n], q[n]);
      MergeCounts(q[..n], x);
      var m := Merge(q[..n]);
      var k := |m| - 1;
      assert m == m[..k] + [m[k]];
      WellFormedSnoc(m[..k], m[k]);
      WellFormedSnoc(m[..k], SlotRange(m[k].start, q[n].end));
      WellFormedSnoc(m, q[n]);
      CountSnoc(q[..n], q[n], x);
      CountSnoc(m[..k], m[k], x);
      CountSnoc(m[..k], SlotRange(m[k].start, q[n].end), x);
      CountSnoc(m, q[n], x);
    }
  }

  predicate AllUpTo(q: seq<SlotRange>, limit: int) {
    forall i :: 0 <= i < |q| ==> q[i].start <= limit
  }

  lemma SortedSnoc(a: seq<SlotRange>, r: SlotRange)
    ensures Sorted(a + [r]) <==> Sorted(a) && AllUpTo(a, r.start)
  {
    var b := a + [r];
    assert b[|a|] == r && forall i :: 0 <= i < |a| ==> b[i] == a[i];
  }

  lemma UpToSnoc(a: seq<SlotRange>, r: SlotRange, limit: int)
    ensures AllUpTo(a + [r], limit) <==> AllUpTo(a, limit) && r.start <= limit
  {
    var b := a + [r];
    assert b[|a|] == r && forall i :: 0 <= i < |a| ==> b[i] == a[i];
  }

  lemma {:induction false} MergeSorted(q: seq<SlotRange>, limit: int)
    requires Sorted(q) && AllUpTo(q, limit)
    ensures Sorted(Merge(q)) && AllUpTo(Merge(q), limit)
  {
    hide Sorted, AllUpTo;
    if |q| > 1 {
      var n := |q| - 1;
      assert q == q[..n] + [q[n]];
      SortedSnoc(q[..n], q[n]);
      UpToSnoc(q[..n], q[n], limit);
      MergeSorted(q[..n], q[n].start);
      MergeSorted(q[..n], limit);
      var m := Merge(q[..n]);
      var k := |m| - 1;
      assert m == m[..k] + [m[k]];
      SortedSnoc(m[..k], m[k]);
      SortedSnoc(m[..k], SlotRange(m[k].start, q[n].end));
      UpToSnoc(m[..k], m[k], limit);
      UpToSnoc(m[..k], SlotRange(m[k].start, q[n].end), limit);
      SortedSnoc(m, q[n]);
      UpToSnoc(m, q[n], limit);
    }
  }

  /** Each range ends before the later ones start. */
  predicate Climbing(q: seq<SlotRange>) {
    WellFormed(q) && forall i, j :: 0 <= i < j < |q| ==> q[i].end < q[j].start
  }

  lemma ClimbingPrefix(q: seq<SlotRange>)
    requires Climbing(q) && |q| > 1
    ensures var n := |q| - 1; Climbing(q[..n]) && q[..n][n - 1].end < q[n].start <= q[n].end
  {}

  lemma CanonicalOne(q: seq<SlotRange>)
    requires Climbing(q) && |q| <= 1
    ensures Canonical(q)
  {}

  lemma {:induction false} MergeCanonical(q: seq<SlotRange>)
    requires Climbing(q)
    ensures Canonical(Merge(q))
  {
    hide Canonical, Climbing;
    if |q| <= 1 {
      CanonicalOne(q);
    } else {
      var n := |q| - 1;
      ClimbingPrefix(q);
      MergeCanonical(q[..n]);
      var m := Merge(q[..n]);
      var k := |m| - 1;
      assert m == m[..k] + [m[k]];
      CanonicalSnoc(m[..k], m[k]);
      CanonicalSnoc(m[..k], SlotRange(m[k].start, q[n].end));
      CanonicalSnoc(m, q[n]);
    }
  }

  /** Well-formed ranges are in bounds exactly when the slots they cover are. */
  lemma BoundsCovered(a: seq<SlotRange>)
    requires WellFormed(a)
    ensures InBounds(a) <==> forall x :: Covered(a, x) ==> x < CLUSTER_SLOTS
  {
    forall i | 0 <= i < |a| ensures Covered(a, a[i].end) {
      assert Holds(a[i], a[i].end);
    }
  }

  lemma PermutedMembers(a: seq<SlotRange>, q: seq<SlotRange>)
    requires multiset(a) == multiset(q)
    ensures WellFormed(a) <==> WellFormed(q)
    ensures InBounds(a) <==> InBounds(q)
  {
    forall i | 0 <= i < |a| ensures a[i] in q { assert a[i] in multiset(q); }
    forall i | 0 <= i < |q| ensures q[i] in a { assert q[i] in multiset(a); }
  }

  /** Sort-and-merge keeps how often each slot is covered. */
  lemma NormalCounts(a: seq<SlotRange>, r: seq<SlotRange>)
    requires WellFormed(a) && Normal(a, r)
    ensures WellFormed(r) && Sorted(r) && (InBounds(r) <==> InBounds(a))
    ensures forall x :: Count(r, x) == Count(a, x)
  {
    var q: seq<SlotRange> :| SortedPerm(a, q) && r == Merge(q);
    PermutedMembers(a, q);
    forall x ensures Count(r, x) == Count(a, x) {
      CountPermuted(a, q, x);
      MergeCounts(q, x);
    }
    MergeCounts(q, 0);
    MergeSorted(q, USHORT);
    forall x ensures Covered(r, x) <==> Covered(a, x) {
      CountCovered(a, x);
      CountCovered(r, x);
    }
    BoundsCovered(a);
    BoundsCovered(r);
  }

  lemma SameCountsDisjoint(a: seq<SlotRange>, b: seq<SlotRange>)
    requires WellFormed(b) && Disjoint(a)
    requires forall x :: Count(b, x) == Count(a, x)
    ensures Disjoint(b)
  {
    forall x ensures Count(b, x) <= 1 { CountDisjoint(a, x); }
    OnceDisjoint(b);
  }

  /** Disjoint ranges come out in canonical form, and only they do. */
  lemma NormalCanonical(a: seq<SlotRange>, r: seq<SlotRange>)
    requires WellFormed(a) && Normal(a, r)
    ensures Disjoint(a) <==> Disjoint(r)
    ensures Disjoint(a) <==> Canonical(r)
  {
    NormalCounts(a, r);
    if Disjoint(a) {
      var q: seq<SlotRange> :| SortedPerm(a, q) && r == Merge(q);
      PermutedMembers(a, q);
      forall x ensures Count(q, x) == Count(a, x) { CountPermuted(a, q, x); }
      SameCountsDisjoint(a, q);
      forall i, j | 0 <= i < j < |q| ensures q[i].end < q[j].start {
        assert q[i].start <= q[j].start;
      }
      MergeCanonical(q);
    }
    if Canonical(r) || Disjoint(r) {
      assert Disjoint(r);
      SameCountsDisjoint(r, a);
      SameCountsDisjoint(a, r);
    }
    if Disjoint(a) { SameCountsDisjoint(a, r); }
  }

  // ---- canonical forms ------------------------------------------------------

  /** A set of slots has one canonical form. */
  lemma {:induction false} CanonicalUnique(a: seq<SlotRange>, b: seq<SlotRange>)
    requires Canonical(a) && Canonical(b)
    requires forall x :: Covered(a, x) <==> Covered(b, x)
    ensures a == b
    decreases |a|
  {
    hide Canonical, Covered;
    if a != [] { FirstStart(a, b); }
    if b != [] { FirstStart(b, a); }
    if a != [] && b != [] {
      FirstEnd(a, b);
      FirstEnd(b, a);
      forall x ensures Covered(a[1..], x) <==> Covered(b[1..], x) {
        TailCovered(a, x);
        TailCovered(b, x);
      }
      TailCovered(a, 0);
      TailCovered(b, 0);
      CanonicalUnique(a[1..], b[1..]);
      assert a == [a[0]] + a[1..] && b == [b[0]] + b[1..];
    }
  }

  lemma FirstStart(a: seq<SlotRange>, b: seq<SlotRange>)
    requires Canonical(a) && Canonical(b) && a != []
    requires forall x :: Covered(a, x) <==> Covered(b, x)
    ensures b != [] && b[0].start <= a[0].start
  {
    assert Holds(a[0], a[0].start);
    assert Covered(a, a[0].start);
    assert Covered(b, a[0].start);
  }

  lemma FirstEnd(a: seq<SlotRange>, b: seq<SlotRange>)
    requires Canonical(a) && Canonical(b) && a != [] && b != [] && a[0].start == b[0].start
    requires forall x :: Covered(a, x) <==> Covered(b, x)
    ensures b[0].end <= a[0].end
  {
    var x := a[0].end + 1;
    assert !Covered(a, x);
    assert !Covered(b, x);
    assert !Holds(b[0], x);
  }

  lemma TailCovered(a: seq<SlotRange>, x: int)
    requires Canonical(a) && a != []
    ensures Canonical(a[1..]) && (Covered(a[1..], x) <==> Covered(a, x) && x > a[0].end)
  {
    var t := a[1..];
    if Covered(t, x) {
      var i :| 0 <= i < |t| && Holds(t[i], x);
      assert Holds(a[i + 1], x);
    }
    if Covered(a, x) && x > a[0].end {
      var i :| 0 <= i < |a| && Holds(a[i], x);
      assert Holds(t[i - 1], x);
    }
  }

  lemma SameCovered(a: seq<SlotRange>, b: seq<SlotRange>)
    requires forall x :: Count(a, x) == Count(b, x)
    ensures forall x :: Covered(a, x) <==> Covered(b, x)
  {
    forall x ensures Covered(a, x) <==> Covered(b, x) {
      assert Count(a, x) == Count(b, x);
      CountCovered(a, x);
      CountCovered(b, x);
    }
  }

  /** When one of two arrays is disjoint, their normal forms are equal exactly when the
      other is disjoint too and the two cover the same slots. */
  lemma EqualDecides(a: seq<SlotRange>, b: seq<SlotRange>, ra: seq<SlotRange>, rb: seq<SlotRange>)
    requires WellFormed(a) && WellFormed(b) && Disjoint(a) && Normal(a, ra) && Normal(b, rb)
    ensures ra == rb <==> Disjoint(b) && forall x :: Covered(a, x) <==> Covered(b, x)
  {
    hide Count, Disjoint, WellFormed, InBounds, Covered, Canonical, Sorted, Normal;
    NormalCounts(a, ra);
    NormalCounts(b, rb);
    NormalCanonical(a, ra);
    NormalCanonical(b, rb);
    SameCovered(ra, a);
    SameCovered(rb, b);
    if Disjoint(b) && forall x :: Covered(a, x) <==> Covered(b, x) {
      CanonicalUnique(ra, rb);
    }
  }

  // ---- validation -----------------------------------------------------------

  /** What the validator finds in the merged array. */
  predicate Acceptable(r: seq<SlotRange>) {
    InBounds(r) && WellFormed(r) && Disjoint(r)
  }

  /** The validator's verdict is the promised one for every well-formed array. */
  lemma AcceptExact(a: seq<SlotRange>, r: seq<SlotRange>)
    requires WellFormed(a) && Normal(a, r)
    ensures Acceptable(r) <==> InBounds(a) && Disjoint(a)
  {
    NormalCounts(a, r);
    NormalCanonical(a, r);
  }

  /** A reversed range takes part in a merge: it starts right after its left neighbour's
      end, or its right neighbour starts right after its own. */
  predicate GluesReversed(q: seq<SlotRange>) {
    exists i :: 0 < i < |q| && q[i - 1].end + 1 == q[i].start
                && (q[i - 1].start > q[i - 1].end || q[i].start > q[i].end)
  }

  lemma UngluedPrefix(q: seq<SlotRange>)
    requires |q| > 1 && !GluesReversed(q)
    ensures var n := |q| - 1;
            && !GluesReversed(q[..n])
            && (q[n - 1].end + 1 == q[n].start ==> q[n - 1].start <= q[n - 1].end && q[n].start <= q[n].end)
  {
    var q0 := q[..|q| - 1];
    assert forall i :: 0 <= i < |q0| ==> q0[i] == q[i];
  }

  lemma {:induction false} UngluedReversed(q: seq<SlotRange>)
    requires q != [] && !GluesReversed(q)
    ensures WellFormed(Merge(q)) <==> WellFormed(q)
    ensures var m := Merge(q); m[|m| - 1].start > m[|m| - 1].end <==> q[|q| - 1].start > q[|q| - 1].end
    decreases |q|
  {
    hide WellFormed, GluesReversed;
    if |q| > 1 {
      var n := |q| - 1;
      UngluedPrefix(q);
      UngluedReversed(q[..n]);
      var m := Merge(q[..n]);
      var k := |m| - 1;
      assert q == q[..n] + [q[n]] && m == m[..k] + [m[k]] && q[n - 1] == q[..n][n - 1];
      WellFormedSnoc(q[..n], q[n]);
      WellFormedSnoc(m, q[n]);
      WellFormedSnoc(m[..k], m[k]);
      WellFormedSnoc(m[..k], SlotRange(m[k].start, q[n].end));
    }
  }

  // The maximal chains of a sorted array, in which each range starts right after the end
  // of the one before.

  predicate Glued(q: seq<SlotRange>, k: int) {
    0 < k < |q| && q[k - 1].end + 1 == q[k].start
  }

  predicate Chain(q: seq<SlotRange>, i: int, j: int) {
    && 0 <= i <= j < |q|
    && !Glued(q, i) && !Glued(q, j + 1)
    && forall k :: i < k <= j ==> Glued(q, k)
  }

  /** A chain as the range from its first start to its last end. */
  function Span(q: seq<SlotRange>, i: int, j: int): SlotRange
    requires 0 <= i <= j < |q|
  {
    SlotRange(q[i].start, q[j].end)
  }

  predicate Proper(r: SlotRange) {
    r.start <= r.end < CLUSTER_SLOTS
  }

  predicate Separate(r: SlotRange, s: SlotRange) {
    r.end < s.start || s.end < r.start
  }

  /** Every chain spans slots in order and in bounds, and no two spans meet. */
  ghost predicate ChainsPass(q: seq<SlotRange>) {
    && (forall i, j :: Chain(q, i, j) ==> Proper(Span(q, i, j)))
    && (forall i, j, k, l :: Chain(q, i, j) && Chain(q, k, l) && j < k ==> Separate(Span(q, i, j), Span(q, k, l)))
  }

  /** The chains in order, by their first and last index. */
  function Chains(q: seq<SlotRange>): (c: seq<(int, int)>)
    ensures q != [] ==> c != []
    ensures forall t :: 0 <= t < |c| ==> 0 <= c[t].0 <= c[t].1 < |q|
  {
    if q == [] then []
    else if |q| == 1 then [(0, 0)]
    else Longer(Chains(q[..|q| - 1]), |q| - 1, Glued(q, |q| - 1))
  }

  function Longer(c: seq<(int, int)>, n: int, glued: bool): seq<(int, int)>
    requires c != []
  {
    if glued then c[..|c| - 1] + [(c[|c| - 1].0, n)] else c + [(n, n)]
  }

  ghost predicate Spans(q: seq<SlotRange>, c: seq<(int, int)>, m: seq<SlotRange>) {
    && |m| == |c|
    && forall t :: 0 <= t < |c| ==> 0 <= c[t].0 <= c[t].1 < |q| && m[t] == Span(q, c[t].0, c[t].1)
  }

  lemma SpansWider(q: seq<SlotRange>, n: int, c: seq<(int, int)>, m: seq<SlotRange>)
    requires 0 <= n <= |q| && Spans(q[..n], c, m)
    ensures Spans(q, c, m)
  {
    forall t | 0 <= t < |c| ensures 0 <= c[t].0 <= c[t].1 < |q| && m[t] == Span(q, c[t].0, c[t].1) {
      assert m[t] == Span(q[..n], c[t].0, c[t].1);
    }
  }

  lemma SpansSnoc(q: seq<SlotRange>, c: seq<(int, int)>, m: seq<SlotRange>, i: int, j: int)
    requires Spans(q, c, m) && 0 <= i <= j < |q|
    ensures Spans(q, c + [(i, j)], m + [Span(q, i, j)])
  {
  }

  lemma SpansFront(q: seq<SlotRange>, c: seq<(int, int)>, m: seq<SlotRange>)
    requires Spans(q, c, m) && c != []
    ensures var k := |c| - 1;
            && |m| == |c| && Spans(q, c[..k], m[..k])
            && 0 <= c[k].0 <= c[k].1 < |q| && m[k].start == q[c[k].0].start
  {
  }

  lemma SpansLonger(q: seq<SlotRange>, c: seq<(int, int)>, m: seq<SlotRange>)
    requires |q| > 1 && c != [] && m != [] && Spans(q[..|q| - 1], c, m) && m[|m| - 1].end == q[|q| - 2].end
    ensures Spans(q, Longer(c, |q| - 1, Glued(q, |q| - 1)), Appending(m, q[|q| - 1]))
  {
    hide Spans;
    var n, k := |q| - 1, |c| - 1;
    SpansWider(q, n, c, m);
    SpansFront(q, c, m);
    SpansSnoc(q, c, m, n, n);
    SpansSnoc(q, c[..k], m[..k], c[k].0, n);
    assert q[n] == SlotRange(q[n].start, q[n].end);
  }

  /** Merging leaves the spans of the chains. */
  lemma {:induction false} MergeSpans(q: seq<SlotRange>)
    ensures Spans(q, Chains(q), Merge(q))
  {
    hide Spans, Glued, Longer, Appending;
    if |q| <= 1 {
      FewSpans(q);
    } else {
      var n := |q| - 1;
      MergeSpans(q[..n]);
      MergeStep(q, n, Merge(q[..n]));
      assert q[..n + 1] == q;
      SpansLonger(q, Chains(q[..n]), Merge(q[..n]));
    }
  }

  lemma FewSpans(q: seq<SlotRange>)
    requires |q| <= 1
    ensures Spans(q, Chains(q), Merge(q))
  {
  }

  lemma MergeStep(q: seq<SlotRange>, i: int, m: seq<SlotRange>)
    requires 1 <= i < |q| && m == Merge(q[..i])
    ensures m != [] && m[|m| - 1].end == q[i - 1].end
    ensures Merge(q[..i + 1]) == Appending(m, q[i])
  {
    assert q[..i + 1][..i] == q[..i];
  }

  lemma ChainSame(q: seq<SlotRange>, n: int, i: int, j: int)
    requires n == |q| - 1 >= 0 && Chain(q[..n], i, j) && j < n - 1
    ensures Chain(q, i, j)
  {
    assert forall k :: 0 < k < n ==> Glued(q[..n], k) == Glued(q, k);
  }

  lemma ChainLast(q: seq<SlotRange>, n: int, i: int)
    requires n == |q| - 1 >= 0 && Chain(q[..n], i, n - 1)
    ensures n > 0 && if Glued(q, n) then Chain(q, i, n) else Chain(q, i, n - 1) && Chain(q, n, n)
  {
    assert forall k :: 0 < k < n ==> Glued(q[..n], k) == Glued(q, k);
  }

  /** Consecutive, from the first index to the last. */
  predicate Covering(c: seq<(int, int)>, n: int) {
    && c != [] && c[0].0 == 0 && c[|c| - 1].1 == n - 1
    && (forall t :: 0 <= t < |c| ==> c[t].0 <= c[t].1)
    && forall t :: 0 < t < |c| ==> c[t - 1].1 + 1 == c[t].0
  }

  lemma {:induction false} CoveringBelow(c: seq<(int, int)>, n: int, t: int, u: int)
    requires Covering(c, n) && 0 <= t < u < |c|
    ensures c[t].1 < c[u].0
    decreases u
  {
    assert c[u - 1].1 + 1 == c[u].0;
    if t < u - 1 { CoveringBelow(c, n, t, u - 1); }
  }

  lemma CoveringMore(c: seq<(int, int)>, n: int)
    requires Covering(c, n) && n > 0
    ensures var k := |c| - 1;
            Covering(Longer(c, n, true), n + 1) && Covering(Longer(c, n, false), n + 1)
  {
  }

  lemma CoveringLast(c: seq<(int, int)>, n: int)
    requires Covering(c, n)
    ensures c != [] && c[|c| - 1].1 == n - 1
  {
  }

  lemma {:induction false} ChainsAre(q: seq<SlotRange>)
    requires q != []
    ensures Covering(Chains(q), |q|)
    ensures forall t :: 0 <= t < |Chains(q)| ==> Chain(q, Chains(q)[t].0, Chains(q)[t].1)
  {
    hide Merge, Chain, Covering, Glued;
    if |q| == 1 {
      OneChain(q);
    } else {
      var n := |q| - 1;
      ChainsAre(q[..n]);
      var c := Chains(q[..n]);
      hide Chains;
      CoveringMore(c, n);
      LongerChains(q, c);
    }
  }

  lemma LongerChains(q: seq<SlotRange>, c: seq<(int, int)>)
    requires |q| > 1 && c != [] && Covering(c, |q| - 1)
    requires forall t :: 0 <= t < |c| ==> Chain(q[..|q| - 1], c[t].0, c[t].1)
    ensures var d := Longer(c, |q| - 1, Glued(q, |q| - 1));
            forall t :: 0 <= t < |d| ==> Chain(q, d[t].0, d[t].1)
  {
    hide Chain, Covering, Glued;
    var n, last := |q| - 1, |c| - 1;
    CoveringLast(c, n);
    assert Chain(q[..n], c[last].0, c[last].1);
    ChainLast(q, n, c[last].0);
    forall t | 0 <= t < last ensures Chain(q, c[t].0, c[t].1) {
      assert Chain(q[..n], c[t].0, c[t].1);
      CoveringBelow(c, n, t, last);
      CoveringOrdered(c, n, last);
      ChainSame(q, n, c[t].0, c[t].1);
    }
  }

  lemma CoveringOrdered(c: seq<(int, int)>, n: int, t: int)
    requires Covering(c, n) && 0 <= t < |c|
    ensures c[t].0 <= c[t].1
  {
  }

  lemma OneChain(q: seq<SlotRange>)
    requires |q| == 1
    ensures Chain(q, 0, 0) && Covering([(0, 0)], 1) && Chains(q) == [(0, 0)]
  {
  }

  /** Every chain is one of them. */
  lemma {:induction false} ChainFound(q: seq<SlotRange>, i: int, j: int, t: int) returns (u: int)
    requires Chain(q, i, j) && 0 <= t < |Chains(q)| && i <= Chains(q)[t].1
    ensures 0 <= u <= t && Chains(q)[u] == (i, j)
    decreases t
  {
    hide Merge, Chains;
    ChainsAre(q);
    var c := Chains(q);
    assert t > 0 ==> c[t - 1].1 + 1 == c[t].0;
    assert Chain(q, c[t].0, c[t].1);
    if i < c[t].0 {
      u := ChainFound(q, i, j, t - 1);
    } else {
      SameChain(q, i, j, c[t].0, c[t].1);
      u := t;
    }
  }

  lemma SameChain(q: seq<SlotRange>, i: int, j: int, k: int, l: int)
    requires Chain(q, i, j) && Chain(q, k, l) && k <= i <= l
    ensures i == k && j == l
  {
    assert k < i ==> Glued(q, i);
    assert j < l ==> Glued(q, j + 1);
    assert l < j ==> Glued(q, l + 1);
  }

  lemma MemberSpan(q: seq<SlotRange>, t: int)
    requires q != [] && 0 <= t < |Merge(q)|
    ensures |Merge(q)| == |Chains(q)| && var c := Chains(q)[t]; Chain(q, c.0, c.1) && Merge(q)[t] == Span(q, c.0, c.1)
  {
    hide Merge, Chains, Chain;
    MergeSpans(q);
    ChainsAre(q);
    assert Chain(q, Chains(q)[t].0, Chains(q)[t].1);
  }

  lemma SpanMember(q: seq<SlotRange>, i: int, j: int) returns (t: int)
    requires Chain(q, i, j)
    ensures 0 <= t < |Merge(q)| && |Merge(q)| == |Chains(q)| && Chains(q)[t] == (i, j) && Merge(q)[t] == Span(q, i, j)
  {
    hide Merge, Chains, Covering;
    MergeSpans(q);
    ChainsAre(q);
    CoveringLast(Chains(q), |q|);
    t := ChainFound(q, i, j, |Chains(q)| - 1);
  }

  /** The validator passes the merged array exactly when the chains of the sorted one pass. */
  lemma AcceptChains(q: seq<SlotRange>)
    requires q != []
    ensures Acceptable(Merge(q)) <==> ChainsPass(q)
  {
    hide Merge, Chains, Glued, Covering;
    var m := Merge(q);
    if ChainsPass(q) {
      forall t | 0 <= t < |m| ensures Proper(m[t]) { MemberSpan(q, t); }
      forall t, u | 0 <= t < u < |m| ensures Separate(m[t], m[u]) {
        MemberSpan(q, t);
        MemberSpan(q, u);
        ChainsAre(q);
        CoveringBelow(Chains(q), |q|, t, u);
      }
      ProperAll(m);
    }
    if Acceptable(m) {
      forall i, j | Chain(q, i, j) ensures Proper(Span(q, i, j)) {
        var t := SpanMember(q, i, j);
      }
      forall i, j, k, l | Chain(q, i, j) && Chain(q, k, l) && j < k ensures Separate(Span(q, i, j), Span(q, k, l)) {
        var t := SpanMember(q, i, j);
        var u := SpanMember(q, k, l);
        MembersApart(m, t, u);
      }
    }
  }

  lemma ProperAll(m: seq<SlotRange>)
    requires forall t :: 0 <= t < |m| ==> Proper(m[t])
    requires forall t, u :: 0 <= t < u < |m| ==> Separate(m[t], m[u])
    ensures Acceptable(m)
  {
  }

  lemma MembersApart(m: seq<SlotRange>, t: int, u: int)
    requires Disjoint(m) && 0 <= t < |m| && 0 <= u < |m| && t != u
    ensures Separate(m[t], m[u])
  {
  }

  /** What the validator promises to accept. */
  predicate Promised(a: seq<SlotRange>) {
    WellFormed(a) && InBounds(a) && Disjoint(a)
  }

  /** The verdict on an array that sorts to q: right whenever no reversed range takes part in
      a merge, and wrong exactly when one does and the chains pass all the same. */
  lemma ReversedExact(a: seq<SlotRange>, q: seq<SlotRange>)
    requires a != [] && SortedPerm(a, q)
    ensures Acceptable(Merge(q)) <==> ChainsPass(q)
    ensures !GluesReversed(q) ==> (Acceptable(Merge(q)) <==> Promised(a))
    ensures (Acceptable(Merge(q)) <==> Promised(a)) <==> !(GluesReversed(q) && ChainsPass(q))
  {
    hide Merge, ChainsPass, InBounds, Disjoint;
    PermutedMembers(a, q);
    assert |multiset(a)| == |a| && |multiset(q)| == |q|;
    assert Normal(a, Merge(q));
    AcceptChains(q);
    if WellFormed(a) {
      AcceptExact(a, Merge(q));
    }
    if !GluesReversed(q) {
      UngluedReversed(q);
    }
  }

  lemma MergePair(x: SlotRange, y: SlotRange)
    ensures Merge([x, y]) == if x.end + 1 == y.start then [SlotRange(x.start, y.end)] else [x, y]
  {
    assert [x, y][..1] == [x];
  }

  /** The failing family: a range, and one that starts right after it but ends inside it.
      The validator accepts the pair and drops the slots in between. */
  lemma ReversedSwallowed(lo: ushort, mid: ushort, hi: ushort)
    requires lo <= mid < hi < CLUSTER_SLOTS
    ensures var a := [SlotRange(lo, hi), SlotRange(hi + 1, mid)];
            && !WellFormed(a)
            && Normal(a, [SlotRange(lo, mid)])
            && Acceptable([SlotRange(lo, mid)])
            && Covered(a, hi) && !Covered([SlotRange(lo, mid)], hi)
  {
    hide Merge;
    var a := [SlotRange(lo, hi), SlotRange(hi + 1, mid)];
    assert a[1].start > a[1].end;
    assert Holds(a[0], hi);
    assert SortedPerm(a, a);
    MergePair(a[0], a[1]);
  }

  /** Ranges that start together may come out of the sort either way round, so two copies
      of one array need not compare equal. */
  lemma TiesAmbiguous(lo: ushort, mid: ushort, hi: ushort)
    requires lo <= mid < hi
    ensures var a := [SlotRange(lo, mid), SlotRange(lo, hi)];
            Normal(a, a) && Normal(a, [a[1], a[0]])
  {
    hide Merge;
    var x, y := SlotRange(lo, mid), SlotRange(lo, hi);
    MergePair(x, y);
    MergePair(y, x);
    assert SortedPerm([x, y], [x, y]) && SortedPerm([x, y], [y, x]);
  }

  /** Ranges that start together are the same range. */
  predicate TieFree(a: seq<SlotRange>) {
    forall i, j :: 0 <= i < |a| && 0 <= j < |a| && a[i].start == a[j].start ==> a[i] == a[j]
  }

  lemma TieFreePermuted(a: seq<SlotRange>, q: seq<SlotRange>)
    requires TieFree(a) && multiset(a) == multiset(q)
    ensures TieFree(q)
  {
    forall i | 0 <= i < |q| ensures q[i] in a { assert q[i] in multiset(a); }
  }

  /** The last of two sorted permutations has the same start in both. */
  lemma LastStarts(p: seq<SlotRange>, q: seq<SlotRange>)
    requires Sorted(p) && Sorted(q) && multiset(p) == multiset(q) && p != []
    ensures q != [] && p[|p| - 1].start <= q[|q| - 1].start && p[|p| - 1] in q
  {
    assert p[|p| - 1] in multiset(q);
  }

  lemma {:induction false} SortedOnce(p: seq<SlotRange>, q: seq<SlotRange>)
    requires Sorted(p) && Sorted(q) && multiset(p) == multiset(q) && TieFree(p)
    ensures p == q
    decreases |p|
  {
    hide Sorted, TieFree;
    assert |multiset(p)| == |p| && |multiset(q)| == |q|;
    if p != [] {
      var n := |p| - 1;
      LastStarts(p, q);
      LastStarts(q, p);
      TiedLast(p, q[n]);
      FrontMultiset(p);
      FrontMultiset(q);
      FrontOf(p);
      FrontOf(q);
      SortedOnce(p[..n], q[..n]);
      assert p == p[..n] + [p[n]] && q == q[..n] + [q[n]];
    }
  }

  lemma FrontMultiset(p: seq<SlotRange>)
    requires p != []
    ensures multiset(p[..|p| - 1]) == multiset(p) - multiset{p[|p| - 1]}
  {
    assert p == p[..|p| - 1] + [p[|p| - 1]];
  }

  lemma TiedLast(p: seq<SlotRange>, r: SlotRange)
    requires TieFree(p) && p != [] && r in p && r.start == p[|p| - 1].start
    ensures r == p[|p| - 1]
  {
  }

  lemma FrontOf(p: seq<SlotRange>)
    requires p != []
    ensures Sorted(p) ==> Sorted(p[..|p| - 1])
    ensures TieFree(p) ==> TieFree(p[..|p| - 1])
  {
  }

  lemma TieFreeNormal(a: seq<SlotRange>, b: seq<SlotRange>, r: seq<SlotRange>, s: seq<SlotRange>)
    requires TieFree(a) && multiset(a) == multiset(b) && Normal(a, r) && Normal(b, s)
    ensures r == s
  {
    hide Sorted, TieFree, Merge;
    var p: seq<SlotRange> :| SortedPerm(a, p) && r == Merge(p);
    var q: seq<SlotRange> :| SortedPerm(b, q) && s == Merge(q);
    TieFreePermuted(a, p);
    SortedOnce(p, q);
  }

  /** Entries before the last one are not touched by what is merged later. */
  lemma {:induction false} MergePrefix(q: seq<SlotRange>, n: int)
    requires 0 < n <= |q|
    ensures var m := Merge(q[..n]);
            |m| <= |Merge(q)| && forall t :: 0 <= t < |m| - 1 ==> Merge(q)[t] == m[t]
    decreases |q|
  {
    if n == |q| {
      assert q[..n] == q;
    } else {
      MergePrefix(q[..|q| - 1], n);
      assert q[..|q| - 1][..n] == q[..n];
    }
  }

  /** A neighbour that starts at the same slot as q[k] freezes the entry that ends in q[k]. */
  lemma FrozenEnd(q: seq<SlotRange>, k: int)
    requires 0 <= k && k + 1 < |q| && q[k].start == q[k + 1].start <= q[k].end
    ensures var t := |Merge(q[..k + 1])| - 1; 0 <= t < |Merge(q)| && Merge(q)[t].end == q[k].end
  {
    hide Merge;
    var m := Merge(q[..k + 1]);
    MergeStep(q, k + 1, m);
    MergePrefix(q, k + 2);
    assert Merge(q[..k + 2]) == m + [q[k + 1]];
    assert (m + [q[k + 1]])[|m| - 1] == m[|m| - 1];
  }

  function Swapped(q: seq<SlotRange>, k: int): (r: seq<SlotRange>)
    requires 0 <= k && k + 1 < |q|
    ensures |r| == |q|
  {
    q[k := q[k + 1]][k + 1 := q[k]]
  }

  lemma SwappedPerm(a: seq<SlotRange>, q: seq<SlotRange>, k: int)
    requires SortedPerm(a, q) && 0 <= k && k + 1 < |q| && q[k].start == q[k + 1].start
    ensures SortedPerm(a, Swapped(q, k))
  {
    SwappedSorted(q, k);
    hide Sorted;
  }

  lemma SwappedSorted(q: seq<SlotRange>, k: int)
    requires Sorted(q) && 0 <= k && k + 1 < |q| && q[k].start == q[k + 1].start
    ensures Sorted(Swapped(q, k))
  {
    var r := Swapped(q, k);
    assert forall i :: 0 <= i < |q| ==> r[i].start == q[i].start;
  }

  /** Swapping two neighbours that tie changes the merged array. */
  lemma SwapMatters(q: seq<SlotRange>, k: int)
    requires 0 <= k && k + 1 < |q| && q[k].start == q[k + 1].start && q[k] != q[k + 1]
    requires q[k].start <= q[k].end && q[k].start <= q[k + 1].end
    ensures Merge(q) != Merge(Swapped(q, k))
  {
    hide Merge, Swapped;
    SwappedAt(q, k);
    FrozenEnd(q, k);
    FrozenEnd(Swapped(q, k), k);
    SameLength(q, Swapped(q, k), k);
    assert q[k].end != q[k + 1].end;
  }

  lemma SwappedAt(q: seq<SlotRange>, k: int)
    requires 0 <= k && k + 1 < |q|
    ensures var r := Swapped(q, k); r[k] == q[k + 1] && r[k + 1] == q[k] && r[..k] == q[..k]
  {
  }

  /** Whether a range is glued on depends on its start alone. */
  lemma SameLength(q: seq<SlotRange>, r: seq<SlotRange>, k: int)
    requires 0 <= k < |q| && |q| == |r| && q[..k] == r[..k] && q[k].start == r[k].start
    ensures |Merge(q[..k + 1])| == |Merge(r[..k + 1])|
  {
    if k == 0 {
      MergeOne(q);
      MergeOne(r);
    } else {
      MergeStep(q, k, Merge(q[..k]));
      MergeStep(r, k, Merge(r[..k]));
    }
  }

  /** Between two ranges of one start that differ, two neighbours differ. */
  lemma {:induction false} AdjacentTie(q: seq<SlotRange>, i: int, j: int) returns (k: int)
    requires Sorted(q) && 0 <= i < j < |q| && q[i].start == q[j].start && q[i] != q[j]
    ensures i <= k < j && q[k].start == q[k + 1].start && q[k] != q[k + 1]
    decreases j - i
  {
    assert q[i].start <= q[i + 1].start && (i + 1 < j ==> q[i + 1].start <= q[j].start);
    if q[i] != q[i + 1] {
      k := i;
    } else {
      k := AdjacentTie(q, i + 1, j);
    }
  }

  lemma SortedTie(a: seq<SlotRange>, q: seq<SlotRange>) returns (k: int)
    requires SortedPerm(a, q) && !TieFree(a)
    ensures 0 <= k && k + 1 < |q| && q[k].start == q[k + 1].start && q[k] != q[k + 1]
  {
    var i, j :| 0 <= i < |a| && 0 <= j < |a| && a[i].start == a[j].start && a[i] != a[j];
    assert a[i] in multiset(q) && a[j] in multiset(q);
    var x :| 0 <= x < |q| && q[x] == a[i];
    var y :| 0 <= y < |q| && q[y] == a[j];
    if x < y { k := AdjacentTie(q, x, y); } else { k := AdjacentTie(q, y, x); }
  }

  lemma ProperAt(q: seq<SlotRange>, k: int)
    requires WellFormed(q) && 0 <= k < |q|
    ensures q[k].start <= q[k].end
  {
  }

  /** An array has one normal form, whatever order the sort gives ties, exactly when ranges
      that start together are the same. */
  lemma TiesExact(a: seq<SlotRange>)
    requires WellFormed(a)
    ensures (forall r, s :: Normal(a, r) && Normal(a, s) ==> r == s) <==> TieFree(a)
  {
    hide Merge, Sorted, TieFree, WellFormed;
    if TieFree(a) {
      forall r, s | Normal(a, r) && Normal(a, s) ensures r == s { TieFreeNormal(a, a, r, s); }
    } else {
      var q := Sort(a);
      var k := SortedTie(a, q);
      SwappedPerm(a, q, k);
      PermutedMembers(a, q);
      ProperAt(q, k);
      ProperAt(q, k + 1);
      SwapMatters(q, k);
      assert Normal(a, Merge(q)) && Normal(a, Merge(Swapped(q, k)));
    }
  }

  // ---- appending ------------------------------------------------------------

  function Truncate(slot: int): ushort { slot % USHORT }

  /** The array after slot is appended; an absent array is the empty one. */
  function Appended(a: seq<SlotRange>, slot: int): (r: seq<SlotRange>)
    ensures r != []
  {
    var n := |a| - 1;
    if a == [] || slot != a[n].end + 1 then a + [SlotRange(Truncate(slot), Truncate(slot))]
    else a[..n] + [SlotRange(a[n].start, Truncate(slot))]
  }

  function Built(xs: seq<int>): seq<SlotRange> {
    if xs == [] then [] else Appended(Built(xs[..|xs| - 1]), xs[|xs| - 1])
  }

  predicate Increasing(xs: seq<int>) {
    && (forall i :: 0 <= i < |xs| ==> 0 <= xs[i] < USHORT)
    && forall i, j :: 0 <= i < j < |xs| ==> xs[i] < xs[j]
  }

  lemma AppendCovers(a: seq<SlotRange>, slot: ushort)
    requires Canonical(a) && (a != [] ==> a[|a| - 1].end < slot)
    ensures var r := Appended(a, slot); Canonical(r) && r[|r| - 1].end == slot
    ensures forall x :: Covered(Appended(a, slot), x) <==> Covered(a, x) || x == slot
  {
    hide Canonical, Covered;
    var n := |a| - 1;
    var r := SlotRange(slot, slot);
    CanonicalSnoc(a, r);
    if a != [] {
      assert a == a[..n] + [a[n]];
      CanonicalSnoc(a[..n], a[n]);
      CanonicalSnoc(a[..n], SlotRange(a[n].start, slot));
    }
    forall x ensures Covered(Appended(a, slot), x) <==> Covered(a, x) || x == slot {
      CoveredSnoc(a, r, x);
      if a != [] {
        CoveredSnoc(a[..n], a[n], x);
        CoveredSnoc(a[..n], SlotRange(a[n].start, slot), x);
      }
    }
  }

  lemma NoSlots()
    ensures Canonical([]) && forall x :: !Covered([], x)
  {}

  /** Appending increasing slots builds a canonical array of just those slots. */
  lemma {:induction false} BuiltCanonical(xs: seq<int>)
    requires Increasing(xs)
    ensures Canonical(Built(xs))
    ensures forall x :: Covered(Built(xs), x) <==> x in xs
    ensures xs != [] ==> var b := Built(xs); b[|b| - 1].end == xs[|xs| - 1]
  {
    hide Canonical, Covered, Appended;
    NoSlots();
    if xs != [] {
      var n := |xs| - 1;
      BuiltCanonical(xs[..n]);
      AppendCovers(Built(xs[..n]), xs[n]);
      assert xs == xs[..n] + [xs[n]];
    }
  }

  /** It is the form that sort-and-merge gives any disjoint array of the same slots. */
  lemma BuiltIsNormal(xs: seq<int>, a: seq<SlotRange>, r: seq<SlotRange>)
    requires Increasing(xs) && WellFormed(a) && Disjoint(a) && Normal(a, r)
    requires forall x :: Covered(a, x) <==> x in xs
    ensures r == Built(xs)
  {
    BuiltCanonical(xs);
    NormalCounts(a, r);
    NormalCanonical(a, r);
    SameCovered(a, r);
    CanonicalUnique(r, Built(xs));
  }

  // ---- the array ------------------------------------------------------------

  /** An insertion sort stands in for the library's qsort; callers use its contract only. */
  function Insert(q: seq<SlotRange>, r: SlotRange): seq<SlotRange> {
    var n := |q| - 1;
    if q == [] || q[n].start <= r.start then q + [r]
    else Insert(q[..n], r) + [q[n]]
  }

  lemma {:induction false} InsertSorted(q: seq<SlotRange>, r: SlotRange, limit: int)
    requires Sorted(q) && AllUpTo(q, limit) && r.start <= limit
    ensures Sorted(Insert(q, r)) && AllUpTo(Insert(q, r), limit)
  {
    var n := |q| - 1;
    if !(q == [] || q[n].start <= r.start) {
      InsertSorted(q[..n], r, q[n].start);
    }
  }

  lemma {:induction false} InsertPermutes(q: seq<SlotRange>, r: SlotRange)
    ensures multiset(Insert(q, r)) == multiset(q) + multiset{r}
  {
    var n := |q| - 1;
    if !(q == [] || q[n].start <= r.start) {
      InsertPermutes(q[..n], r);
      assert q == q[..n] + [q[n]];
    }
  }

  function Sort(a: seq<SlotRange>): (q: seq<SlotRange>)
    ensures SortedPerm(a, q)
  {
    if a == [] then [] else
      var n := |a| - 1;
      var q := Sort(a[..n]);
      assert a == a[..n] + [a[n]];
      InsertPermutes(q, a[n]);
      InsertSorted(q, a[n], USHORT);
      Insert(q, a[n])
  }

  /** How a verdict came about: the sorted array, its merged form, the chains that decide,
      and when that is what was promised. */
  ghost predicate Judged(a: seq<SlotRange>, q: seq<SlotRange>, r: seq<SlotRange>, ok: bool) {
    && SortedPerm(a, q) && r == Merge(q)
    && (ok <==> ChainsPass(q))
    && ((ok <==> Promised(a)) <==> !(GluesReversed(q) && ChainsPass(q)))
  }

  /** An error names a range or a slot that is at fault. */
  ghost predicate Explains(r: seq<SlotRange>, v: Verdict) {
    match v
    case OutOfRange(lo, hi) =>
      exists i :: 0 <= i < |r| && r[i].start == lo && r[i].end == hi && (lo >= CLUSTER_SLOTS || hi >= CLUSTER_SLOTS)
    case Reversed(lo, hi) => lo > hi && exists i :: 0 <= i < |r| && r[i].start == lo && r[i].end == hi
    case Repeated(x) => Count(r, x) >= 2
    case _ => true
  }

  /** Range i is the first at fault and v says what is wrong with it: bounds before order
      before repetition, and of the repeated slots the lowest. */
  ghost predicate FirstFault(r: seq<SlotRange>, v: Verdict, i: int) {
    && 0 <= i < |r| && Acceptable(r[..i])
    && match v
       case OutOfRange(lo, hi) =>
         lo == r[i].start && hi == r[i].end && (lo >= CLUSTER_SLOTS || hi >= CLUSTER_SLOTS)
       case Reversed(lo, hi) => lo == r[i].start < CLUSTER_SLOTS && hi == r[i].end < CLUSTER_SLOTS && lo > hi
       case Repeated(x) =>
         && r[i].start <= r[i].end < CLUSTER_SLOTS && Holds(r[i], x) && Covered(r[..i], x)
         && forall y :: r[i].start <= y < x ==> !Covered(r[..i], y)
       case _ => false
  }

  /** There is only one such verdict. */
  lemma FirstFaultUnique(r: seq<SlotRange>, v: Verdict, i: int, w: Verdict, j: int)
    requires FirstFault(r, v, i) && FirstFault(r, w, j)
    ensures i == j && v == w
  {
    hide Acceptable, Covered;
    if i < j { FaultEnds(r, v, i, j); }
    if j < i { FaultEnds(r, w, j, i); }
  }

  lemma FaultEnds(r: seq<SlotRange>, v: Verdict, i: int, j: int)
    requires FirstFault(r, v, i) && i < j <= |r|
    ensures !Acceptable(r[..j])
  {
    assert r[..j][i] == r[i];
    if v.Repeated? {
      assert r[..j][..i] == r[..i];
      RepeatedTwice(r[..j], i, v.slot);
    }
  }

  /** The table has exactly the slots of the ranges seen. */
  ghost predicate Marks(used: seq<bool>, a: seq<SlotRange>) {
    |used| == CLUSTER_SLOTS && forall x :: 0 <= x < CLUSTER_SLOTS ==> (used[x] <==> Covered(a, x))
  }

  lemma NoneUsed(a: seq<SlotRange>)
    ensures Acceptable(a[..0]) && forall x :: !Covered(a[..0], x)
  {}

  lemma RepeatedTwice(a: seq<SlotRange>, i: int, x: int)
    requires 0 <= i < |a| && Covered(a[..i], x) && Holds(a[i], x)
    ensures Count(a, x) >= 2 && !Acceptable(a)
  {
    var j :| 0 <= j < i && Holds(a[..i][j], x);
    CountTwice(a, j, i, x);
    assert !Disjoint(a);
  }

  lemma MarkedNext(a: seq<SlotRange>, i: int)
    requires 0 <= i < |a| && Acceptable(a[..i])
    requires 0 <= a[i].start <= a[i].end < CLUSTER_SLOTS
    requires forall x :: Holds(a[i], x) ==> !Covered(a[..i], x)
    ensures Acceptable(a[..i + 1])
    ensures forall x :: Covered(a[..i + 1], x) <==> Covered(a[..i], x) || Holds(a[i], x)
  {
    var p, q := a[..i], a[..i + 1];
    forall j | 0 <= j < i ensures a[j].end < a[i].start || a[i].end < a[j].start {
      assert p[j] == a[j];
      var x := if a[j].start <= a[i].start then a[i].start else a[j].start;
      assert !(Holds(a[i], x) && Holds(p[j], x));
    }
    forall x ensures Covered(q, x) <==> Covered(p, x) || Holds(a[i], x) {
      assert Holds(q[i], x) <==> Holds(a[i], x);
      assert forall j :: 0 <= j < i ==> p[j] == q[j];
    }
  }

  /** Mark the slots of r; a slot marked before stops the marking and is returned, else -1. */
  method Mark(used: array<bool>, r: SlotRange, ghost a: seq<SlotRange>) returns (slot: int)
    requires used.Length == CLUSTER_SLOTS && Marks(used[..], a) && r.end < CLUSTER_SLOTS
    modifies used
    ensures slot == -1 || (Holds(r, slot) && Covered(a, slot) && forall x :: r.start <= x < slot ==> !Covered(a, x))
    ensures slot == -1 ==>
              && (forall x :: Holds(r, x) ==> !Covered(a, x))
              && (forall x :: 0 <= x < CLUSTER_SLOTS ==> (used[x] <==> Covered(a, x) || Holds(r, x)))
  {
    hide Covered;
    var j: int := r.start;
    while j <= r.end
      invariant r.start <= j && (j <= r.end + 1 || j == r.start)
      invariant forall x :: r.start <= x < j ==> !Covered(a, x)
      invariant forall x :: 0 <= x < CLUSTER_SLOTS ==> (used[x] <==> Covered(a, x) || r.start <= x < j)
    {
      if used[j] {
        return j;
      }
      used[j] := true;
      j := j + 1;
    }
    return -1;
  }

  /** slotRangeArrayIsEqual: when one of two well-formed arrays is disjoint, the answer is
      whether both are and they hold the same slots. Two orders of one array without ties
      always compare equal. */
  method IsEqual(s1: SlotRangeArray, s2: SlotRangeArray) returns (same: bool)
    requires s1.Valid() && s2.Valid() && (s1 != s2 ==> s1.ranges != s2.ranges)
    modifies s1`numRanges, s1.ranges, s2`numRanges, s2.ranges
    ensures s1.Valid() && s2.Valid() && (same <==> s1.View() == s2.View())
    ensures s1 != s2 ==> Normal(old(s1.View()), s1.View()) && Normal(old(s2.View()), s2.View())
    ensures s1 == s2 ==> same
    ensures (WellFormed(old(s1.View())) && WellFormed(old(s2.View())) && Disjoint(old(s1.View()))) ==>
              (same <==>
                 && Disjoint(old(s2.View()))
                 && forall x :: Covered(old(s1.View()), x) <==> Covered(old(s2.View()), x))
    ensures TieFree(old(s1.View())) && multiset(old(s1.View())) == multiset(old(s2.View())) ==> same
  {
    hide Normal, WellFormed, Disjoint, Covered, TieFree;
    ghost var a, b := s1.View(), s2.View();
    s1.SortAndMerge();
    s2.SortAndMerge();
    same := s1.Agrees(s2);
    if s1 != s2 && WellFormed(a) && WellFormed(b) && Disjoint(a) {
      EqualDecides(a, b, s1.View(), s2.View());
    }
    if s1 != s2 && TieFree(a) && multiset(a) == multiset(b) {
      TieFreeNormal(a, b, s1.View(), s2.View());
    }
  }

  lemma MergeOne(q: seq<SlotRange>)
    requires q != []
    ensures Merge(q[..1]) == [q[0]]
  {
    assert q[..1] == [q[0]];
  }

  class SlotRangeArray {
    var ranges: array<SlotRange>
    var numRanges: int

    ghost predicate Valid()
      reads this
    {
      0 <= numRanges <= ranges.Length
    }

    ghost function View(): seq<SlotRange>
      requires Valid()
      reads this, ranges
    {
      ranges[..numRanges]
    }

    /** A NULL array given its first slot. */
    constructor Append(slot: int)
      ensures Valid() && fresh(ranges) && View() == Appended([], slot)
    {
      var r := SlotRange(Truncate(slot), Truncate(slot));
      ranges, numRanges := new SlotRange[4](_ => r), 1;
    }

    method Qsort()
      requires Valid()
      modifies ranges
      ensures SortedPerm(old(View()), View())
    {
      hide Sorted;
      var a := ranges[..numRanges];
      var q := Sort(a);
      assert |multiset(q)| == |multiset(a)|;
      var i := 0;
      while i < numRanges
        invariant 0 <= i <= numRanges && ranges[..i] == q[..i]
        modifies ranges
      {
        ranges[i] := q[i];
        i := i + 1;
      }
      assert View() == q;
    }

    /** slotRangeArraySortAndMerge. */
    method SortAndMerge()
      requires Valid()
      modifies this`numRanges, ranges
      ensures Valid() && Normal(old(View()), View())
      ensures numRanges <= old(numRanges) && (numRanges == 0 <==> old(numRanges) == 0)
    {
      ghost var before := View();
      if numRanges <= 1 {
        assert SortedPerm(before, before) && Merge(before) == before;
        return;
      }
      Qsort();
      MergeInPlace();
      assert Normal(before, View());
    }

    /** One round of the merging loop. */
    method MergeNext(idx: int, i: int) returns (next: int)
      requires 0 <= idx < i < ranges.Length
      modifies ranges
      ensures idx <= next <= i && ranges[..next + 1] == Appending(old(ranges[..idx + 1]), old(ranges[i]))
      ensures forall j :: i < j < ranges.Length ==> ranges[j] == old(ranges[j])
    {
      next := idx;
      if ranges[idx].end + 1 == ranges[i].start {
        ranges[idx] := SlotRange(ranges[idx].start, ranges[i].end);
      } else {
        next := next + 1;
        ranges[next] := ranges[i];
      }
    }

    /** The merging loop: idx writes behind i. */
    method MergeInPlace()
      requires Valid() && numRanges > 1
      modifies this`numRanges, ranges
      ensures Valid() && 1 <= numRanges <= old(numRanges) && View() == Merge(old(View()))
    {
      hide Merge, Appending;
      ghost var q := View();
      var idx, i := 0, 1;
      MergeOne(q);
      while i < numRanges
        invariant 0 <= idx < i <= numRanges == |q| <= ranges.Length
        invariant ranges[..idx + 1] == Merge(q[..i])
        invariant forall j :: i <= j < numRanges ==> ranges[j] == q[j]
        modifies ranges
      {
        MergeStep(q, i, ranges[..idx + 1]);
        idx := MergeNext(idx, i);
        i := i + 1;
      }
      assert q[..i] == q;
      numRanges := idx + 1;
    }

    /** The checks of slotRangeArrayNormalizeAndValidate on the merged array. */
    method Validate() returns (v: Verdict)
      requires Valid()
      ensures !v.BadCount? && (v.Ok? <==> Acceptable(View()))
      ensures Explains(View(), v) && (!v.Ok? ==> exists i :: FirstFault(View(), v, i))
    {
      hide Disjoint, Covered, Count;
      var used := new bool[CLUSTER_SLOTS](_ => false);
      ghost var a := View();
      NoneUsed(a);
      var i := 0;
      while i < numRanges
        invariant 0 <= i <= numRanges && Acceptable(a[..i])
        invariant Marks(used[..], a[..i])
        modifies used
      {
        var r := ranges[i];
        assert r == a[i];
        if r.start >= CLUSTER_SLOTS || r.end >= CLUSTER_SLOTS {
          v := OutOfRange(r.start, r.end);
          assert FirstFault(a, v, i);
          return;
        }
        if r.start > r.end {
          v := Reversed(r.start, r.end);
          assert FirstFault(a, v, i);
          return;
        }
        var slot := Mark(used, r, a[..i]);
        if slot >= 0 {
          RepeatedTwice(a, i, slot);
          v := Repeated(slot);
          assert FirstFault(a, v, i);
          return;
        }
        MarkedNext(a, i);
        i := i + 1;
      }
      assert a[..i] == a;
      return Ok;
    }

    /** slotRangeArrayNormalizeAndValidate: the verdict is exact about the merged array, and
        about the array given when that has no reversed range. */
    method NormalizeAndValidate() returns (v: Verdict)
      requires Valid()
      modifies this`numRanges, ranges
      ensures Valid()
      ensures v.BadCount? <==> !(0 < old(numRanges) < CLUSTER_SLOTS)
      ensures v.BadCount? ==> v.n == old(numRanges) && View() == old(View())
      ensures !v.BadCount? ==> Normal(old(View()), View()) && (v.Ok? <==> Acceptable(View()))
      ensures Explains(View(), v) && (!v.Ok? && !v.BadCount? ==> exists i :: FirstFault(View(), v, i))
      ensures !v.BadCount? ==> exists q :: Judged(old(View()), q, View(), v.Ok?)
      ensures WellFormed(old(View())) ==>
                && !v.Reversed?
                && (v.Ok? <==> 0 < old(numRanges) < CLUSTER_SLOTS && InBounds(old(View())) && Disjoint(old(View())))
                && (v.Ok? ==> Canonical(View()))
                && (v.Repeated? ==> Count(old(View()), v.slot) >= 2)
    {
      hide Disjoint, WellFormed, InBounds, Acceptable, Canonical, Count, Merge, Promised, ChainsPass, GluesReversed,
        SortedPerm, FirstFault;
      ghost var before := View();
      if numRanges <= 0 || numRanges >= CLUSTER_SLOTS {
        return BadCount(numRanges);
      }
      assert |before| > 0;
      SortAndMerge();
      v := Validate();
      ghost var q: seq<SlotRange> :| SortedPerm(before, q) && View() == Merge(q);
      ReversedExact(before, q);
      assert Judged(before, q, View(), v.Ok?);
      if WellFormed(before) {
        NormalCounts(before, View());
        NormalCanonical(before, View());
        AcceptExact(before, View());
      }
    }

    /** Append a slot above all others, growing the buffer when it is full. */
    method Push(slot: int)
      requires Valid() && 1 <= numRanges <= CLUSTER_SLOTS && slot > View()[numRanges - 1].end
      modifies this, ranges
      ensures Valid() && (ranges == old(ranges) || fresh(ranges)) && View() == Appended(old(View()), slot)
    {
      var last := ranges[numRanges - 1];
      if slot == last.end + 1 {
        ranges[numRanges - 1] := SlotRange(last.start, Truncate(slot));
        return;
      }
      var r := SlotRange(Truncate(slot), Truncate(slot));
      if numRanges >= ranges.Length {
        var old_, cap := ranges, ranges.Length;
        ranges := new SlotRange[cap * 2](i requires 0 <= i reads old_ => if i < old_.Length then old_[i] else r);
      }
      ranges[numRanges] := r;
      numRanges := numRanges + 1;
    }

    method Agrees(other: SlotRangeArray) returns (same: bool)
      requires Valid() && other.Valid()
      ensures same <==> View() == other.View()
    {
      if numRanges != other.numRanges {
        assert |View()| != |other.View()|;
        return false;
      }
      var i := 0;
      while i < numRanges
        invariant 0 <= i <= numRanges
        invariant forall j :: 0 <= j < i ==> View()[j] == other.View()[j]
      {
        if ranges[i].start != other.ranges[i].start || ranges[i].end != other.ranges[i].end {
          assert View()[i] != other.View()[i];
          return false;
        }
        assert View()[i] == other.View()[i];
        i := i + 1;
      }
      return true;
    }

    /** slotRangeArrayContains. */
    method Contains(slot: nat) returns (found: bool)
      requires Valid()
      ensures found <==> Covered(View(), slot)
    {
      var i := 0;
      while i < numRanges
        invariant 0 <= i <= numRanges
        invariant forall j :: 0 <= j < i ==> !Holds(View()[j], slot)
      {
        if ranges[i].start <= slot && ranges[i].end >= slot {
          assert Holds(View()[i], slot);
          return true;
        }
        i := i + 1;
      }
      return false;
    }
  }
}
