/**
  The heap inside one buddy block, as its two lists of headers describe it.
  Sizes are stored nowhere: a header's region reaches to the next header of either list.
 */
module HeapLayout {
  import opened Sequences

  const HEADER: nat := 4

  /**
    `A` are the headers of allocated objects and `F` those of free regions, both by address.
    `S[j]` says how many allocated headers lie below the free header `F[j]`.
   */
  datatype Layout = Layout(base: nat, limit: nat, A: seq<nat>, F: seq<nat>, S: seq<nat>) {

    /** End of the free region `j`. */
    function GapEnd(j: nat): nat
      requires j < |S|
    {
      if S[j] < |A| then A[S[j]] else limit
    }

    function Gap(j: nat): int
      requires j < |F| == |S|
    {
      GapEnd(j) - F[j]
    }

    /** Headers are apart, and ascending. */
    ghost predicate Ordered() {
      && (forall i, k :: 0 <= i < k < |A| ==> A[i] + HEADER < A[k])
      && (forall i :: 0 <= i < |A| ==> base <= A[i] && A[i] + HEADER < limit)
    }

    /** Each free region lies between the allocated headers its slot names, and no two share a slot. */
    ghost predicate Interleaved() {
      && |S| == |F|
      && (forall j, k :: 0 <= j < k < |S| ==> S[j] < S[k])
      && (forall j :: 0 <= j < |F| ==> S[j] <= |A| && base <= F[j] && F[j] + HEADER < GapEnd(j))
      && (forall j, i :: 0 <= j < |F| && 0 <= i < S[j] && i < |A| ==> A[i] + HEADER < F[j])
    }

    /** The first header starts the block, so the regions of the headers tile it. */
    ghost predicate Rooted() {
      (|A| > 0 && A[0] == base) || (|F| > 0 && F[0] == base)
    }

    ghost predicate Valid() {
      Ordered() && Interleaved() && Rooted() && |A| > 0
    }
  }

  /** The j-th gap can hold `size` bytes, header included. */
  predicate Fits(l: Layout, size: nat, j: nat)
    requires j < |l.F| == |l.S|
  {
    size <= l.Gap(j)
  }

  /** First fit: the lowest gap that fits. Best fit: the smallest, lowest on ties. */
  ghost predicate Picked(l: Layout, size: nat, firstFit: bool, j: nat)
    requires |l.F| == |l.S|
  {
    && j < |l.F| && Fits(l, size, j)
    && (firstFit ==> forall k :: 0 <= k < j ==> !Fits(l, size, k))
    && (!firstFit ==> forall k :: 0 <= k < |l.F| && Fits(l, size, k) ==>
         l.Gap(j) < l.Gap(k) || (l.Gap(j) == l.Gap(k) && j <= k))
  }

  ghost predicate NoneFits(l: Layout, size: nat)
    requires |l.F| == |l.S|
  {
    forall k :: 0 <= k < |l.F| ==> !Fits(l, size, k)
  }

  /** Slots from position `j` on, moved by one when an allocated header appears or disappears below them. */
  function Shift(s: seq<nat>, j: nat, d: int): (t: seq<nat>)
    requires j <= |s| && forall k :: j <= k < |s| ==> s[k] + d >= 0
    ensures |t| == |s|
    ensures forall k :: 0 <= k < |s| ==> t[k] == if k < j then s[k] else s[k] + d
  {
    seq(|s|, k requires 0 <= k < |s| => if k < j then s[k] else s[k] + d)
  }

  // ---- malloc into a gap ----

  /** An object of `size` bytes at the start of gap `j`; what is left stays free if it can hold more than a header. */
  function Place(l: Layout, j: nat, size: nat): Layout
    requires |l.F| == |l.S| && j < |l.F| && l.S[j] <= |l.A|
  {
    var a := l.F[j];
    var A := Insert(l.A, l.S[j], a);
    var S := Shift(l.S, j, 1);
    if l.Gap(j) - size > HEADER then
      Layout(l.base, l.limit, A, l.F[j := a + size], S)
    else
      Layout(l.base, l.limit, A, Remove(l.F, j), Remove(S, j))
  }

  /** `Place`, entry by entry. */
  ghost predicate Placed(l: Layout, j: nat, size: nat, p: Layout)
    requires |l.F| == |l.S| && j < |l.F| && l.S[j] <= |l.A|
  {
    var rest := l.Gap(j) - size > HEADER;
    && p.base == l.base && p.limit == l.limit
    && |p.A| == |l.A| + 1 && |p.F| == |p.S| == (if rest then |l.F| else |l.F| - 1)
    && (forall i {:trigger p.A[i]} :: 0 <= i < |p.A| ==>
         p.A[i] == if i < l.S[j] then l.A[i] else if i == l.S[j] then l.F[j] else l.A[i - 1])
    && (forall k {:trigger p.F[k]} {:trigger p.S[k]} :: 0 <= k < |p.F| ==>
         var q := if rest || k < j then k else k + 1;
         && p.F[k] == (if q == j then l.F[j] + size else l.F[q])
         && p.S[k] == (if q < j then l.S[q] else l.S[q] + 1))
  }

  lemma PlaceView(l: Layout, j: nat, size: nat)
    requires |l.F| == |l.S| && j < |l.F| && l.S[j] <= |l.A|
    ensures Placed(l, j, size, Place(l, j, size))
  {
  }

  lemma PlaceOrdered(l: Layout, j: nat, size: nat)
    requires l.Valid() && j < |l.F| && size > HEADER && Fits(l, size, j)
    ensures Place(l, j, size).Ordered()
  {
    PlaceView(l, j, size);
    var p := Place(l, j, size);
    SlotAndGap(l, j);
    hide Place;
    forall i, k | 0 <= i < k < |p.A|
      ensures p.A[i] + HEADER < p.A[k]
    {
      PlacedPair(l, j, size, p, i, k);
    }
    forall i | 0 <= i < |p.A|
      ensures p.base <= p.A[i] && p.A[i] + HEADER < p.limit
    {
      PlacedInBlock(l, j, size, p, i);
    }
  }

  lemma SlotAndGap(l: Layout, j: nat)
    requires l.Valid() && j < |l.F|
    ensures l.S[j] <= |l.A|
  {
  }

  lemma PlacedPair(l: Layout, j: nat, size: nat, p: Layout, i: nat, k: nat)
    requires l.Valid() && j < |l.F| && l.S[j] <= |l.A| && Placed(l, j, size, p) && i < k < |p.A|
    ensures p.A[i] + HEADER < p.A[k]
  {
    GapNeighbours(l, j);
  }

  lemma PlacedInBlock(l: Layout, j: nat, size: nat, p: Layout, i: nat)
    requires l.Valid() && j < |l.F| && l.S[j] <= |l.A| && Placed(l, j, size, p) && i < |p.A|
    ensures p.base <= p.A[i] && p.A[i] + HEADER < p.limit
  {
    GapNeighbours(l, j);
  }

  /** Allocated headers below and above a gap. */
  lemma GapNeighbours(l: Layout, j: nat)
    requires l.Valid() && j < |l.F|
    ensures l.S[j] <= |l.A| && l.base <= l.F[j] && l.F[j] + HEADER < l.limit
    ensures forall i :: 0 <= i < l.S[j] ==> l.A[i] + HEADER < l.F[j]
    ensures forall i :: l.S[j] <= i < |l.A| ==> l.GapEnd(j) <= l.A[i] && l.F[j] + HEADER < l.A[i]
    ensures l.GapEnd(j) <= l.limit && l.F[j] + HEADER < l.GapEnd(j)
  {
  }

  /** Gap `q` of the old layout, seen from the new one. */
  lemma PlacedGap(l: Layout, j: nat, size: nat, p: Layout, k: nat)
    requires l.Valid() && j < |l.F| && size > HEADER && Fits(l, size, j) && Placed(l, j, size, p)
    requires k < |p.F|
    ensures p.S[k] <= |p.A| && p.base <= p.F[k] && p.F[k] + HEADER < p.GapEnd(k)
    ensures forall i :: 0 <= i < p.S[k] ==> p.A[i] + HEADER < p.F[k]
  {
    var q := if l.Gap(j) - size > HEADER || k < j then k else k + 1;
    GapNeighbours(l, q);
    GapNeighbours(l, j);
    if q < j {
      assert l.S[q] < l.S[j];
    } else if q > j {
      assert l.S[j] < l.S[q];
    }
  }

  lemma PlaceInterleaved(l: Layout, j: nat, size: nat)
    requires l.Valid() && j < |l.F| && size > HEADER && Fits(l, size, j)
    ensures Place(l, j, size).Interleaved()
  {
    PlaceView(l, j, size);
    hide Place;
    var p := Place(l, j, size);
    forall k | 0 <= k < |p.F|
      ensures p.S[k] <= |p.A| && p.base <= p.F[k] && p.F[k] + HEADER < p.GapEnd(k)
      ensures forall i :: 0 <= i < p.S[k] ==> p.A[i] + HEADER < p.F[k]
    {
      PlacedGap(l, j, size, p, k);
    }
    forall k, k' | 0 <= k < k' < |p.S|
      ensures p.S[k] < p.S[k']
    {
      PlacedSlots(l, j, size, p, k, k');
    }
  }

  lemma PlacedSlots(l: Layout, j: nat, size: nat, p: Layout, k: nat, k': nat)
    requires l.Valid() && j < |l.F| && l.S[j] <= |l.A| && Placed(l, j, size, p) && k < k' < |p.F|
    ensures p.S[k] < p.S[k']
  {
    var rest := l.Gap(j) - size > HEADER;
    var q, q' := if rest || k < j then k else k + 1, if rest || k' < j then k' else k' + 1;
    assert p.F[k] == p.F[k] && l.S[q] < l.S[q'];
  }

  lemma PlaceValid(l: Layout, j: nat, size: nat)
    requires l.Valid() && j < |l.F| && size > HEADER && Fits(l, size, j)
    ensures Place(l, j, size).Valid()
  {
    PlaceOrdered(l, j, size);
    PlaceInterleaved(l, j, size);
    if j > 0 {
      assert l.S[0] < l.S[j];
    }
  }

  // ---- free ----

  /** The free headers below allocated header `i` are the first `j`. */
  ghost predicate SplitAt(l: Layout, i: nat, j: nat) {
    && i < |l.A| && j <= |l.S| == |l.F|
    && (forall k :: 0 <= k < j ==> l.S[k] <= i)
    && (forall k :: j <= k < |l.S| ==> l.S[k] > i)
  }

  /** A free region ends where object `i` starts. */
  predicate LeftFree(l: Layout, i: nat, j: nat)
    requires j <= |l.S|
  {
    j > 0 && l.S[j - 1] == i
  }

  /** A free region starts where object `i` ends. */
  predicate RightFree(l: Layout, i: nat, j: nat) {
    j < |l.S| && l.S[j] == i + 1
  }

  /** Object `i` becomes free and merges with the free regions it touches. */
  function Release(l: Layout, i: nat, j: nat): Layout
    requires i < |l.A| && |l.F| == |l.S| && j <= |l.S|
    requires forall k :: j <= k < |l.S| ==> l.S[k] > i
  {
    var A, S := Remove(l.A, i), Shift(l.S, j, -1);
    if LeftFree(l, i, j) then
      if RightFree(l, i, j) then Layout(l.base, l.limit, A, Remove(l.F, j), Remove(S, j))
      else Layout(l.base, l.limit, A, l.F, S)
    else
      if RightFree(l, i, j) then Layout(l.base, l.limit, A, l.F[j := l.A[i]], S)
      else Layout(l.base, l.limit, A, Insert(l.F, j, l.A[i]), Insert(S, j, i))
  }

  /** Where the k-th free region after the release comes from: an old one, or the object itself. */
  function Origin(left: bool, right: bool, j: nat, k: nat): int {
    if k < j then k
    else if left then (if right then k + 1 else k)
    else if k == j then -1
    else if right then k else k - 1
  }

  /** `Release`, entry by entry. */
  ghost predicate Released(l: Layout, i: nat, j: nat, p: Layout)
    requires SplitAt(l, i, j)
  {
    var left, right := LeftFree(l, i, j), RightFree(l, i, j);
    && p.base == l.base && p.limit == l.limit
    && |p.A| == |l.A| - 1 && |p.F| == |p.S|
    && |p.F| == |l.F| + (if left then 0 else 1) - (if right then 1 else 0)
    && (forall t {:trigger p.A[t]} :: 0 <= t < |p.A| ==> p.A[t] == if t < i then l.A[t] else l.A[t + 1])
    && (forall k {:trigger p.F[k]} {:trigger p.S[k]} :: 0 <= k < |p.F| ==>
         var q := Origin(left, right, j, k);
         if q < 0 then p.F[k] == l.A[i] && p.S[k] == i
         else q < |l.F| && p.F[k] == l.F[q] && p.S[k] == if k < j then l.S[q] else l.S[q] - 1)
  }

  lemma ReleaseView(l: Layout, i: nat, j: nat)
    requires SplitAt(l, i, j)
    ensures Released(l, i, j, Release(l, i, j))
  {
    if LeftFree(l, i, j) {
      ReleaseLeft(l, i, j);
    } else {
      ReleaseAlone(l, i, j);
    }
  }

  lemma ReleaseLeft(l: Layout, i: nat, j: nat)
    requires SplitAt(l, i, j) && LeftFree(l, i, j)
    ensures Released(l, i, j, Release(l, i, j))
  {
    var A, S := Remove(l.A, i), Shift(l.S, j, -1);
    if RightFree(l, i, j) {
      var F', S' := Remove(l.F, j), Remove(S, j);
      assert Release(l, i, j) == Layout(l.base, l.limit, A, F', S');
      hide Release, Insert, Remove, Shift, LeftFree, RightFree;
    } else {
      assert Release(l, i, j) == Layout(l.base, l.limit, A, l.F, S);
      hide Release, Insert, Remove, Shift, LeftFree, RightFree;
    }
  }

  lemma ReleaseAlone(l: Layout, i: nat, j: nat)
    requires SplitAt(l, i, j) && !LeftFree(l, i, j)
    ensures Released(l, i, j, Release(l, i, j))
  {
    if RightFree(l, i, j) {
      ReleaseRight(l, i, j);
    } else {
      ReleaseBetween(l, i, j);
    }
  }

  lemma ReleaseRight(l: Layout, i: nat, j: nat)
    requires SplitAt(l, i, j) && !LeftFree(l, i, j) && RightFree(l, i, j)
    ensures Released(l, i, j, Release(l, i, j))
  {
    var A, S := Remove(l.A, i), Shift(l.S, j, -1);
    assert Release(l, i, j) == Layout(l.base, l.limit, A, l.F[j := l.A[i]], S);
    hide Release, Insert, Remove, Shift, LeftFree, RightFree;
  }

  lemma ReleaseBetween(l: Layout, i: nat, j: nat)
    requires SplitAt(l, i, j) && !LeftFree(l, i, j) && !RightFree(l, i, j)
    ensures Released(l, i, j, Release(l, i, j))
  {
    var p := Release(l, i, j);
    BetweenIs(l, i, j);
    hide Release, Insert, Remove, Shift, LeftFree, RightFree;
    forall t | 0 <= t < |p.A|
      ensures p.A[t] == if t < i then l.A[t] else l.A[t + 1]
    {
      RemovedAt(l.A, i, t);
    }
    forall k | 0 <= k < |p.F|
      ensures var q := Origin(false, false, j, k);
        if q < 0 then p.F[k] == l.A[i] && p.S[k] == i
        else q < |l.F| && p.F[k] == l.F[q] && p.S[k] == if k < j then l.S[q] else l.S[q] - 1
    {
      BetweenEntry(l, i, j, k);
    }
  }

  lemma BetweenIs(l: Layout, i: nat, j: nat)
    requires SplitAt(l, i, j) && !LeftFree(l, i, j) && !RightFree(l, i, j)
    ensures var p := Release(l, i, j);
      && p.base == l.base && p.limit == l.limit && p.A == Remove(l.A, i) && |p.A| == |l.A| - 1
      && p.F == Insert(l.F, j, l.A[i]) && p.S == Insert(Shift(l.S, j, -1), j, i)
      && |p.F| == |p.S| == |l.F| + 1
  {
  }

  lemma RemovedAt(s: seq<nat>, i: nat, t: nat)
    requires i < |s| && t < |Remove(s, i)|
    ensures t + 1 < |s| && Remove(s, i)[t] == if t < i then s[t] else s[t + 1]
  {
  }

  lemma BetweenEntry(l: Layout, i: nat, j: nat, k: nat)
    requires SplitAt(l, i, j) && k <= |l.F|
    ensures var F, S := Insert(l.F, j, l.A[i]), Insert(Shift(l.S, j, -1), j, i);
      && (k == j ==> F[k] == l.A[i] && S[k] == i)
      && (k < j ==> F[k] == l.F[k] && S[k] == l.S[k])
      && (k > j ==> F[k] == l.F[k - 1] && S[k] == l.S[k - 1] - 1)
  {
    var S := Shift(l.S, j, -1);
    var F', S' := Insert(l.F, j, l.A[i]), Insert(S, j, i);
    hide Insert, Shift;
    if k > j {
      assert S'[k] == S[k - 1] && F'[k] == l.F[k - 1];
    } else if k < j {
      assert S'[k] == S[k] && F'[k] == l.F[k];
    }
  }

  /** The entries of a free region after the release. */
  lemma ReleasedAt(l: Layout, i: nat, j: nat, p: Layout, k: nat)
    requires SplitAt(l, i, j) && Released(l, i, j, p) && k < |p.F|
    ensures |p.F| == |p.S| && |p.A| == |l.A| - 1 && p.base == l.base && p.limit == l.limit
    ensures var q := Origin(LeftFree(l, i, j), RightFree(l, i, j), j, k);
      if q < 0 then p.F[k] == l.A[i] && p.S[k] == i
      else q < |l.F| && p.F[k] == l.F[q] && p.S[k] == if k < j then l.S[q] else l.S[q] - 1
  {
  }

  lemma ReleasedObject(l: Layout, i: nat, j: nat, p: Layout, t: nat)
    requires SplitAt(l, i, j) && Released(l, i, j, p) && t < |p.A|
    ensures t + 1 < |l.A| && p.A[t] == if t < i then l.A[t] else l.A[t + 1]
  {
  }

  /** The slots of free regions that do not touch the object. */
  lemma SlotsApart(l: Layout, i: nat, j: nat, q: nat)
    requires l.Valid() && SplitAt(l, i, j) && q < |l.S|
    ensures q < j && !(q == j - 1 && LeftFree(l, i, j)) ==> l.S[q] < i
    ensures q >= j ==> l.S[q] > i
  {
    if q < j - 1 {
      assert l.S[q] < l.S[j - 1] <= i;
    }
  }

  lemma ReleasedOrdered(l: Layout, i: nat, j: nat, p: Layout)
    requires l.Valid() && SplitAt(l, i, j) && Released(l, i, j, p)
    ensures p.Ordered()
  {
  }

  lemma ReleasedGap(l: Layout, i: nat, j: nat, p: Layout, k: nat)
    requires l.Valid() && SplitAt(l, i, j) && Released(l, i, j, p) && k < |p.F|
    ensures p.S[k] <= |p.A| && p.base <= p.F[k] && p.F[k] + HEADER < p.GapEnd(k)
    ensures forall t :: 0 <= t < p.S[k] ==> p.A[t] + HEADER < p.F[k]
  {
    hide Released;
    ReleasedAt(l, i, j, p, k);
    var q := Origin(LeftFree(l, i, j), RightFree(l, i, j), j, k);
    if q >= 0 {
      GapNeighbours(l, q);
      SlotsApart(l, i, j, q);
    }
    if p.S[k] < |p.A| {
      ReleasedObject(l, i, j, p, p.S[k]);
    }
    forall t | 0 <= t < p.S[k]
      ensures p.A[t] + HEADER < p.F[k]
    {
      ReleasedObject(l, i, j, p, t);
    }
  }

  lemma ReleasedSlots(l: Layout, i: nat, j: nat, p: Layout, k: nat, k': nat)
    requires l.Valid() && SplitAt(l, i, j) && Released(l, i, j, p) && k < k' < |p.F|
    ensures p.S[k] < p.S[k']
  {
    hide Released;
    ReleasedAt(l, i, j, p, k);
    ReleasedAt(l, i, j, p, k');
    var q := Origin(LeftFree(l, i, j), RightFree(l, i, j), j, k);
    var q' := Origin(LeftFree(l, i, j), RightFree(l, i, j), j, k');
    if q >= 0 {
      SlotsApart(l, i, j, q);
    }
    if q' >= 0 {
      SlotsApart(l, i, j, q');
    }
  }

  lemma ReleasedRooted(l: Layout, i: nat, j: nat, p: Layout)
    requires l.Valid() && SplitAt(l, i, j) && Released(l, i, j, p) && |l.A| > 1
    ensures p.Rooted()
  {
  }

  /** Releasing keeps the layout well formed: in particular no two free regions touch afterwards. */
  lemma ReleaseValid(l: Layout, i: nat, j: nat)
    requires l.Valid() && SplitAt(l, i, j) && |l.A| > 1
    ensures Release(l, i, j).Valid()
  {
    ReleaseView(l, i, j);
    var p := Release(l, i, j);
    hide Release;
    ReleasedOrdered(l, i, j, p);
    forall k | 0 <= k < |p.F|
      ensures p.S[k] <= |p.A| && p.base <= p.F[k] && p.F[k] + HEADER < p.GapEnd(k)
      ensures forall t :: 0 <= t < p.S[k] ==> p.A[t] + HEADER < p.F[k]
    {
      ReleasedGap(l, i, j, p, k);
    }
    forall k, k' | 0 <= k < k' < |p.S|
      ensures p.S[k] < p.S[k']
    {
      ReleasedSlots(l, i, j, p, k, k');
    }
    ReleasedRooted(l, i, j, p);
  }

  // ---- what the two operations mean for the bytes of the block ----

  ghost predicate FreeByte(l: Layout, x: int)
    requires |l.F| == |l.S|
  {
    exists j :: 0 <= j < |l.F| && InGap(l, j, x)
  }

  predicate InGap(l: Layout, j: nat, x: int)
    requires j < |l.F| == |l.S|
  {
    l.F[j] <= x < l.GapEnd(j)
  }

  /** End of the region of object `i`. */
  function ObjectEnd(l: Layout, i: nat, j: nat): nat
    requires i < |l.A| && |l.F| == |l.S|
  {
    if RightFree(l, i, j) then l.F[j]
    else if i + 1 < |l.A| then l.A[i + 1] else l.limit
  }

  /** `malloc` takes exactly the bytes of the object (and a remainder too short for a header). */
  lemma PlaceMeaning(l: Layout, j: nat, size: nat, x: int)
    requires l.Valid() && j < |l.F| && size > HEADER && Fits(l, size, j)
    ensures var p := Place(l, j, size);
      |p.F| == |p.S| &&
      (FreeByte(p, x) <==>
       FreeByte(l, x) && !(l.F[j] <= x < l.F[j] + if l.Gap(j) - size > HEADER then size else l.Gap(j)))
  {
    PlaceView(l, j, size);
    var p := Place(l, j, size);
    hide Place;
    if FreeByte(p, x) {
      var k :| 0 <= k < |p.F| && InGap(p, k, x);
      StillFree(l, j, size, p, k, x);
    }
    if FreeByte(l, x) {
      var q :| 0 <= q < |l.F| && InGap(l, q, x);
      StaysFree(l, j, size, p, q, x);
    }
  }

  lemma StillFree(l: Layout, j: nat, size: nat, p: Layout, k: nat, x: int)
    requires l.Valid() && j < |l.F| && size > HEADER && Fits(l, size, j) && Placed(l, j, size, p)
    requires k < |p.F| && InGap(p, k, x)
    ensures FreeByte(l, x) && !(l.F[j] <= x < l.F[j] + if l.Gap(j) - size > HEADER then size else l.Gap(j))
  {
    var q := if l.Gap(j) - size > HEADER || k < j then k else k + 1;
    PlacedGapEnd(l, j, p, k, q);
    assert InGap(l, q, x);
    GapsApart(l, q, j);
  }

  lemma StaysFree(l: Layout, j: nat, size: nat, p: Layout, q: nat, x: int)
    requires l.Valid() && j < |l.F| && size > HEADER && Fits(l, size, j) && Placed(l, j, size, p)
    requires q < |l.F| && InGap(l, q, x)
    ensures FreeByte(p, x) || (l.F[j] <= x < l.F[j] + if l.Gap(j) - size > HEADER then size else l.Gap(j))
  {
    var rest := l.Gap(j) - size > HEADER;
    if q != j || rest {
      var k := if rest || q < j then q else q - 1;
      PlacedGapEnd(l, j, p, k, q);
      assert q != j || x >= l.F[j] + size ==> InGap(p, k, x);
    }
  }

  lemma PlacedGapEnd(l: Layout, j: nat, p: Layout, k: nat, q: nat)
    requires l.Valid() && j < |l.F| && q < |l.F| && |p.F| == |p.S| && k < |p.F|
    requires p.limit == l.limit && |p.A| == |l.A| + 1
    requires forall i {:trigger p.A[i]} :: 0 <= i < |p.A| ==>
      p.A[i] == if i < l.S[j] then l.A[i] else if i == l.S[j] then l.F[j] else l.A[i - 1]
    requires p.S[k] == if q < j then l.S[q] else l.S[q] + 1
    ensures p.GapEnd(k) == l.GapEnd(q)
  {
    if q < j {
      assert l.S[q] < l.S[j];
    }
  }

  lemma GapsApart(l: Layout, q: nat, j: nat)
    requires l.Valid() && q < |l.F| && j < |l.F|
    ensures q < j ==> l.GapEnd(q) <= l.F[j]
    ensures j < q ==> l.GapEnd(j) <= l.F[q]
  {
    if q < j {
      assert l.S[q] < l.S[j];
    } else if j < q {
      assert l.S[j] < l.S[q];
    }
  }

  /** `free` frees exactly the bytes of the object, whichever of the four merge cases applies. */
  lemma ReleaseMeaning(l: Layout, i: nat, j: nat, x: int)
    requires l.Valid() && SplitAt(l, i, j)
    ensures var p := Release(l, i, j);
      |p.F| == |p.S| && (FreeByte(p, x) <==> FreeByte(l, x) || l.A[i] <= x < ObjectEnd(l, i, j))
  {
    ReleaseView(l, i, j);
    var p := Release(l, i, j);
    hide Release;
    if FreeByte(p, x) {
      var k :| 0 <= k < |p.F| && InGap(p, k, x);
      FreedFrom(l, i, j, p, k, x);
    }
    if FreeByte(l, x) {
      var q :| 0 <= q < |l.F| && InGap(l, q, x);
      KeptFree(l, i, j, p, q, x);
    }
    if l.A[i] <= x < ObjectEnd(l, i, j) {
      NewlyFree(l, i, j, p, x);
    }
  }

  /** Every other free region is one of the old ones. */
  lemma UnmergedGap(l: Layout, i: nat, j: nat, p: Layout, k: nat)
    requires l.Valid() && SplitAt(l, i, j) && Released(l, i, j, p)
    requires k < |p.F| && k != if LeftFree(l, i, j) then j - 1 else j
    ensures |p.F| == |p.S|
    ensures var q := Origin(LeftFree(l, i, j), RightFree(l, i, j), j, k);
      0 <= q < |l.F| && p.F[k] == l.F[q] && p.GapEnd(k) == l.GapEnd(q)
  {
    hide Released, RightFree, Layout.Valid;
    ReleasedAt(l, i, j, p, k);
    var q := Origin(LeftFree(l, i, j), RightFree(l, i, j), j, k);
    SlotsApart(l, i, j, q);
    if p.S[k] < |p.A| {
      ReleasedObject(l, i, j, p, p.S[k]);
    }
  }

  /** The free region the object is in now: it starts with the one before it and ends with the one behind it. */
  lemma MergedGap(l: Layout, i: nat, j: nat, p: Layout)
    requires l.Valid() && SplitAt(l, i, j) && Released(l, i, j, p)
    ensures var m := if LeftFree(l, i, j) then j - 1 else j;
      && m < |p.F| == |p.S|
      && p.F[m] == (if LeftFree(l, i, j) then l.F[j - 1] else l.A[i])
      && p.GapEnd(m) == if RightFree(l, i, j) then l.GapEnd(j) else ObjectEnd(l, i, j)
    ensures LeftFree(l, i, j) ==> l.GapEnd(j - 1) == l.A[i]
  {
    var m := if LeftFree(l, i, j) then j - 1 else j;
    assert p.S[m] == i;
  }

  /** The object ends where the free region behind it starts. */
  lemma ObjectInside(l: Layout, i: nat, j: nat)
    requires l.Valid() && SplitAt(l, i, j)
    ensures l.A[i] < ObjectEnd(l, i, j)
    ensures LeftFree(l, i, j) ==> l.F[j - 1] < l.A[i]
    ensures RightFree(l, i, j) ==> ObjectEnd(l, i, j) == l.F[j] < l.GapEnd(j)
  {
    if LeftFree(l, i, j) {
      GapNeighbours(l, j - 1);
    }
    if RightFree(l, i, j) {
      GapNeighbours(l, j);
    }
  }

  lemma InSomeGap(l: Layout, j: nat, x: int)
    requires j < |l.F| == |l.S| && l.F[j] <= x < l.GapEnd(j)
    ensures FreeByte(l, x)
  {
    assert InGap(l, j, x);
  }

  lemma FreedFrom(l: Layout, i: nat, j: nat, p: Layout, k: nat, x: int)
    requires l.Valid() && SplitAt(l, i, j) && Released(l, i, j, p) && k < |p.F| == |p.S| && InGap(p, k, x)
    ensures FreeByte(l, x) || l.A[i] <= x < ObjectEnd(l, i, j)
  {
    hide FreeByte, Released, RightFree, ObjectEnd, Layout.GapEnd;
    if k == (if LeftFree(l, i, j) then j - 1 else j) {
      MergedGap(l, i, j, p);
      ObjectInside(l, i, j);
      FreedFromMerged(l, i, j, p, k, x);
    } else {
      UnmergedGap(l, i, j, p, k);
      InSomeGap(l, Origin(LeftFree(l, i, j), RightFree(l, i, j), j, k), x);
    }
  }

  lemma FreedFromMerged(l: Layout, i: nat, j: nat, p: Layout, k: nat, x: int)
    requires l.Valid() && SplitAt(l, i, j) && k < |p.F| == |p.S| && InGap(p, k, x)
    requires p.F[k] == (if LeftFree(l, i, j) then l.F[j - 1] else l.A[i])
    requires p.GapEnd(k) == if RightFree(l, i, j) then l.GapEnd(j) else ObjectEnd(l, i, j)
    requires LeftFree(l, i, j) ==> l.GapEnd(j - 1) == l.A[i]
    requires RightFree(l, i, j) ==> ObjectEnd(l, i, j) == l.F[j]
    ensures FreeByte(l, x) || l.A[i] <= x < ObjectEnd(l, i, j)
  {
    hide FreeByte, ObjectEnd, Layout.GapEnd;
    if x < l.A[i] {
      InSomeGap(l, j - 1, x);
    } else if x >= ObjectEnd(l, i, j) {
      InSomeGap(l, j, x);
    }
  }

  lemma KeptFree(l: Layout, i: nat, j: nat, p: Layout, q: nat, x: int)
    requires l.Valid() && SplitAt(l, i, j) && Released(l, i, j, p) && q < |l.F| == |l.S| && InGap(l, q, x)
    ensures |p.F| == |p.S| && FreeByte(p, x)
  {
    hide FreeByte, Released, RightFree, ObjectEnd, Layout.GapEnd, Layout.Valid, Origin;
    var left, right := LeftFree(l, i, j), RightFree(l, i, j);
    MergedGap(l, i, j, p);
    ObjectInside(l, i, j);
    if q == j && right {
      InSomeGap(p, if left then j - 1 else j, x);
    } else if q == j - 1 && left {
      InSomeGap(p, j - 1, x);
    } else {
      var k := if q < j then q else if left then (if right then q - 1 else q) else if right then q else q + 1;
      PlaceOfGap(l, i, j, p, q, k);
      UnmergedGap(l, i, j, p, k);
      InSomeGap(p, k, x);
    }
  }

  lemma PlaceOfGap(l: Layout, i: nat, j: nat, p: Layout, q: nat, k: nat)
    requires SplitAt(l, i, j) && Released(l, i, j, p) && q < |l.F|
    requires !(q == j && RightFree(l, i, j)) && !(q == j - 1 && LeftFree(l, i, j))
    requires var left, right := LeftFree(l, i, j), RightFree(l, i, j);
      k == if q < j then q else if left then (if right then q - 1 else q) else if right then q else q + 1
    ensures k < |p.F| && k != (if LeftFree(l, i, j) then j - 1 else j)
    ensures Origin(LeftFree(l, i, j), RightFree(l, i, j), j, k) == q
  {
  }

  lemma NewlyFree(l: Layout, i: nat, j: nat, p: Layout, x: int)
    requires l.Valid() && SplitAt(l, i, j) && Released(l, i, j, p) && l.A[i] <= x < ObjectEnd(l, i, j)
    ensures |p.F| == |p.S| && FreeByte(p, x)
  {
    hide FreeByte, Released, RightFree, ObjectEnd, Layout.GapEnd;
    MergedGap(l, i, j, p);
    ObjectInside(l, i, j);
    InSomeGap(p, if LeftFree(l, i, j) then j - 1 else j, x);
  }
}
