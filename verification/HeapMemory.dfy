/** The two header lists of the heap in raw memory, and what the stores of `malloc` and `free` do to them. */
module HeapMemory {
  import opened Basics
  import opened HeapLayout
  import opened Sequences
  import opened RawMemory

  /** The block and the metadata words that hold the roots of the lists lie in memory, apart from each other. */
  ghost predicate InMemory(m: seq<byte>, heapc: nat, l: Layout) {
    && MEMORY_BASE + |m| <= WORD_LIMIT
    && MEMORY_BASE <= l.base && l.limit <= MEMORY_BASE + |m|
    && MEMORY_BASE <= heapc && heapc + 8 <= MEMORY_BASE + |m|
    && (heapc + 8 <= l.base || l.limit <= heapc)
  }

  /** The memory holds the heap described by `l`; its roots are the words at `heapc` and `heapc + 4`. */
  ghost predicate Holds(m: seq<byte>, heapc: nat, l: Layout) {
    && InMemory(m, heapc, l) && l.Valid()
    && Linked(m, heapc, l.A) && Linked(m, heapc + 4, l.F)
  }

  /** In a well-formed layout no link of one list touches a link of the other. */
  lemma ListsApart(m: seq<byte>, heapc: nat, l: Layout)
    requires InMemory(m, heapc, l) && l.Valid()
    ensures Spread(m, heapc, l.A) && Spread(m, heapc + 4, l.F)
    ensures CrossApart(heapc, l.A, l.F)
  {
    forall k | 0 <= k < |l.F|
      ensures l.base <= l.F[k] && l.F[k] + HEADER < l.limit
      ensures forall i :: 0 <= i < |l.A| ==> Apart(l.A[i], l.F[k])
    {
      GapNeighbours(l, k);
    }
    forall i, k | 0 <= i < k < |l.F|
      ensures Apart(l.F[i], l.F[k])
    {
      GapNeighbours(l, i);
      GapsApart(l, i, k);
    }
  }

  // ---- malloc into gap j ----

  /**
    The memory after the header of the new object, in free header `j`, is linked in behind `s` allocated ones, and the
    gap is replaced by its rest, or dropped.
   */
  function PlaceStoresIn(m: seq<byte>, heapc: nat, A: seq<nat>, F: seq<nat>, s: nat, j: nat, size: nat, rest: bool): (m': seq<byte>)
    requires j < |F| && s <= |A|
    ensures |m'| == |m|
  {
    hide Store;
    var bestFree, bestAlloc, bestPrev := F[j], Link(heapc, A, s), Link(heapc + 4, F, j);
    var next := Target(F, j + 1);
    var m2 := Store(Store(m, bestFree, Target(A, s)), bestAlloc, bestFree);
    if rest then Store(Store(m2, bestFree + size, next), bestPrev, bestFree + size)
    else Store(m2, bestPrev, next)
  }

  function PlaceStores(m: seq<byte>, heapc: nat, l: Layout, j: nat, size: nat): (m': seq<byte>)
    requires j < |l.F| == |l.S| && l.S[j] <= |l.A|
    ensures |m'| == |m|
  {
    PlaceStoresIn(m, heapc, l.A, l.F, l.S[j], j, size, l.Gap(j) - size > HEADER)
  }

  lemma PlaceLists(l: Layout, j: nat, size: nat)
    requires |l.F| == |l.S| && j < |l.F| && l.S[j] <= |l.A|
    ensures var p := Place(l, j, size);
      && p.base == l.base && p.limit == l.limit && p.A == Insert(l.A, l.S[j], l.F[j])
      && p.F == if l.Gap(j) - size > HEADER then l.F[j := l.F[j] + size] else Remove(l.F, j)
  {
  }

  /** The first two stores of `malloc_allocate_in_between` link the object in and leave the free list open at the gap. */
  lemma LinkObjectIn(m: seq<byte>, heapc: nat, A: seq<nat>, F: seq<nat>, s: nat, j: nat)
    requires Linked(m, heapc, A) && Linked(m, heapc + 4, F) && CrossApart(heapc, A, F)
    requires s <= |A| && j < |F| && Target(A, s) < WORD_LIMIT && F[j] < WORD_LIMIT
    requires Addressable(m, F[j]) && Addressable(m, Link(heapc, A, s))
    ensures var m2 := Store(Store(m, F[j], Target(A, s)), Link(heapc, A, s), F[j]);
      && Linked(m2, heapc, Insert(A, s, F[j]))
      && Spread(m2, heapc + 4, F) && LinkedBut(m2, heapc + 4, F, j + 1)
  {
    hide Load, Store, Insert, LinkedBut, Target;
    var x := F[j];
    assert x == Link(heapc + 4, F, j + 1);
    InsertLinked(m, heapc, A, s, x);
    LinkedButAny(m, heapc + 4, F, -1);
    StoreAtLink(m, heapc + 4, F, -1, j + 1, Target(A, s));
    StoreOutside(Store(m, x, Target(A, s)), heapc + 4, F, j + 1, Link(heapc, A, s), x);
  }

  ghost predicate CrossApart(heapc: nat, A: seq<nat>, F: seq<nat>) {
    forall i, k {:trigger Link(heapc, A, i), Link(heapc + 4, F, k)} :: 0 <= i <= |A| && 0 <= k <= |F| ==>
      Apart(Link(heapc, A, i), Link(heapc + 4, F, k))
  }

  /** Putting `y` in the place of free header `j` leaves the other list alone. */
  lemma FreeReplaced(m: seq<byte>, heapc: nat, A: seq<nat>, F: seq<nat>, j: nat, y: nat)
    requires Linked(m, heapc, A) && Spread(m, heapc + 4, F) && LinkedBut(m, heapc + 4, F, j + 1)
    requires j < |F| && Addressable(m, y) && y < WORD_LIMIT && Target(F, j + 1) < WORD_LIMIT
    requires forall i {:trigger Link(heapc + 4, F, i)} :: 0 <= i <= |F| && i != j + 1 ==> Apart(y, Link(heapc + 4, F, i))
    requires CrossApart(heapc, A, F[j := y])
    ensures Addressable(Store(m, y, Target(F, j + 1)), Link(heapc + 4, F, j))
    ensures var m' := Store(Store(m, y, Target(F, j + 1)), Link(heapc + 4, F, j), y);
      Linked(m', heapc, A) && Linked(m', heapc + 4, F[j := y])
  {
    hide Load, Store;
    var F', next := F[j := y], Target(F, j + 1);
    assert Link(heapc + 4, F', j) == Link(heapc + 4, F, j) && Link(heapc + 4, F', j + 1) == y;
    ReplaceLinked(m, heapc + 4, F, j, y);
    StoreOutside(m, heapc, A, -1, y, next);
    StoreOutside(Store(m, y, next), heapc, A, -1, Link(heapc + 4, F, j), y);
  }

  lemma FreeDropped(m: seq<byte>, heapc: nat, A: seq<nat>, F: seq<nat>, j: nat)
    requires Linked(m, heapc, A) && Spread(m, heapc + 4, F) && LinkedBut(m, heapc + 4, F, j + 1)
    requires j < |F| && Target(F, j + 1) < WORD_LIMIT && CrossApart(heapc, A, Remove(F, j))
    ensures var m' := Store(m, Link(heapc + 4, F, j), Target(F, j + 1));
      Linked(m', heapc, A) && Linked(m', heapc + 4, Remove(F, j))
  {
    hide Load, Store;
    assert Link(heapc + 4, Remove(F, j), j) == Link(heapc + 4, F, j);
    RemoveLinked(m, heapc + 4, F, j);
    StoreOutside(m, heapc, A, -1, Link(heapc + 4, F, j), Target(F, j + 1));
  }

  /** What the four or three stores of a placement need to know about the lists. */
  ghost predicate RestClear(heapc: nat, F: seq<nat>, j: nat, y: nat) {
    forall i {:trigger Link(heapc + 4, F, i)} :: 0 <= i <= |F| && i != j + 1 ==> Apart(y, Link(heapc + 4, F, i))
  }

  ghost predicate Placeable(m: seq<byte>, heapc: nat, A: seq<nat>, F: seq<nat>, s: nat, j: nat, size: nat, rest: bool)
    requires j < |F| && s <= |A|
  {
    && Target(A, s) < WORD_LIMIT && F[j] < WORD_LIMIT && Target(F, j + 1) < WORD_LIMIT
    && Addressable(m, F[j]) && Addressable(m, Link(heapc, A, s)) && CrossApart(heapc, A, F)
    && if rest then
         && Addressable(m, F[j] + size) && F[j] + size < WORD_LIMIT
         && CrossApart(heapc, Insert(A, s, F[j]), F[j := F[j] + size])
         && RestClear(heapc, F, j, F[j] + size)
       else CrossApart(heapc, Insert(A, s, F[j]), Remove(F, j))
  }

  lemma PlaceListsHold(m: seq<byte>, heapc: nat, A: seq<nat>, F: seq<nat>, s: nat, j: nat, size: nat, rest: bool)
    requires Linked(m, heapc, A) && Linked(m, heapc + 4, F) && j < |F| && s <= |A|
    requires Placeable(m, heapc, A, F, s, j, size, rest)
    ensures var m' := PlaceStoresIn(m, heapc, A, F, s, j, size, rest);
      && Linked(m', heapc, Insert(A, s, F[j]))
      && Linked(m', heapc + 4, if rest then F[j := F[j] + size] else Remove(F, j))
  {
    hide Load, Store, Linked, LinkedBut, Spread, Insert, Remove, CrossApart, Target, Link;
    LinkObjectIn(m, heapc, A, F, s, j);
    var m2 := Store(Store(m, F[j], Target(A, s)), Link(heapc, A, s), F[j]);
    if rest {
      FreeReplaced(m2, heapc, Insert(A, s, F[j]), F, j, F[j] + size);
    } else {
      FreeDropped(m2, heapc, Insert(A, s, F[j]), F, j);
    }
  }

  lemma GapWords(m: seq<byte>, heapc: nat, l: Layout, j: nat)
    requires InMemory(m, heapc, l) && l.Valid() && j < |l.F|
    ensures |l.F| == |l.S| && l.S[j] <= |l.A|
    ensures Target(l.A, l.S[j]) < WORD_LIMIT && l.F[j] < WORD_LIMIT && Target(l.F, j + 1) < WORD_LIMIT
  {
    GapNeighbours(l, j);
    if j + 1 < |l.F| {
      GapNeighbours(l, j + 1);
    }
  }

  lemma RestWord(m: seq<byte>, heapc: nat, l: Layout, j: nat, size: nat)
    requires InMemory(m, heapc, l) && l.Valid() && j < |l.F| == |l.S| && l.Gap(j) - size > HEADER
    ensures Addressable(m, l.F[j] + size) && l.F[j] + size < WORD_LIMIT
  {
    GapNeighbours(l, j);
  }

  lemma LinkAddressable(m: seq<byte>, root: nat, s: seq<nat>, k: nat)
    requires Spread(m, root, s) && k <= |s|
    ensures Addressable(m, Link(root, s, k))
  {
  }

  lemma PlacedInMemory(m: seq<byte>, heapc: nat, l: Layout, p: Layout)
    requires InMemory(m, heapc, l) && p.base == l.base && p.limit == l.limit
    ensures InMemory(m, heapc, p)
  {
  }

  lemma PlaceableGap(m: seq<byte>, heapc: nat, l: Layout, j: nat, size: nat)
    requires Holds(m, heapc, l) && j < |l.F| && size > HEADER && Fits(l, size, j)
    ensures |l.F| == |l.S| && l.S[j] <= |l.A|
    ensures Placeable(m, heapc, l.A, l.F, l.S[j], j, size, l.Gap(j) - size > HEADER)
  {
    hide *;
    HoldsParts(m, heapc, l);
    GapWords(m, heapc, l, j);
    var p := Place(l, j, size);
    PlaceValid(l, j, size);
    PlaceLists(l, j, size);
    PlacedInMemory(m, heapc, l, p);
    ListsApart(m, heapc, l);
    ListsApart(m, heapc, p);
    LinkAddressable(m, heapc, l.A, l.S[j]);
    LinkAddressable(m, heapc + 4, l.F, j + 1);
    if l.Gap(j) - size > HEADER {
      RestWord(m, heapc, l, j, size);
      RestApart(m, heapc, l, j, size);
    }
    AllPlaceable(m, heapc, l, j, size, p);
  }

  lemma AllPlaceable(m: seq<byte>, heapc: nat, l: Layout, j: nat, size: nat, p: Layout)
    requires j < |l.F| == |l.S| && l.S[j] <= |l.A|
    requires Target(l.A, l.S[j]) < WORD_LIMIT && l.F[j] < WORD_LIMIT && Target(l.F, j + 1) < WORD_LIMIT
    requires Addressable(m, Link(heapc + 4, l.F, j + 1)) && Addressable(m, Link(heapc, l.A, l.S[j]))
    requires CrossApart(heapc, l.A, l.F) && CrossApart(heapc, p.A, p.F) && p.A == Insert(l.A, l.S[j], l.F[j])
    requires p.F == if l.Gap(j) - size > HEADER then l.F[j := l.F[j] + size] else Remove(l.F, j)
    requires l.Gap(j) - size > HEADER ==>
      Addressable(m, l.F[j] + size) && l.F[j] + size < WORD_LIMIT && RestClear(heapc, l.F, j, l.F[j] + size)
    ensures Placeable(m, heapc, l.A, l.F, l.S[j], j, size, l.Gap(j) - size > HEADER)
  {
    assert l.F[j] == Link(heapc + 4, l.F, j + 1);
    hide RestClear, CrossApart, Target, Link, Addressable, Insert, Remove, Layout.Gap;
  }

  lemma StillHolds(m: seq<byte>, m': seq<byte>, heapc: nat, l: Layout, p: Layout)
    requires InMemory(m, heapc, l) && |m'| == |m| && p.base == l.base && p.limit == l.limit && p.Valid()
    requires Linked(m', heapc, p.A) && Linked(m', heapc + 4, p.F)
    ensures Holds(m', heapc, p)
  {
  }

  lemma PlaceHolds(m: seq<byte>, heapc: nat, l: Layout, j: nat, size: nat)
    requires Holds(m, heapc, l) && j < |l.F| && size > HEADER && Fits(l, size, j)
    ensures Holds(PlaceStores(m, heapc, l, j, size), heapc, Place(l, j, size))
  {
    hide *;
    HoldsParts(m, heapc, l);
    PlaceableGap(m, heapc, l, j, size);
    PlaceValid(l, j, size);
    PlaceLists(l, j, size);
    PlaceStoresAre(m, heapc, l, j, size);
    PlaceListsHold(m, heapc, l.A, l.F, l.S[j], j, size, l.Gap(j) - size > HEADER);
    StillHolds(m, PlaceStores(m, heapc, l, j, size), heapc, l, Place(l, j, size));
  }

  lemma HoldsParts(m: seq<byte>, heapc: nat, l: Layout)
    requires Holds(m, heapc, l)
    ensures InMemory(m, heapc, l) && l.Valid() && Linked(m, heapc, l.A) && Linked(m, heapc + 4, l.F)
    ensures |l.F| == |l.S|
  {
  }

  lemma PlaceStoresAre(m: seq<byte>, heapc: nat, l: Layout, j: nat, size: nat)
    requires j < |l.F| == |l.S| && l.S[j] <= |l.A|
    ensures PlaceStores(m, heapc, l, j, size) ==
      PlaceStoresIn(m, heapc, l.A, l.F, l.S[j], j, size, l.Gap(j) - size > HEADER)
    ensures |PlaceStores(m, heapc, l, j, size)| == |m|
  {
    hide PlaceStoresIn;
  }

  /** The header of the rest of a gap is apart from every other link of the free list. */
  lemma RestApart(m: seq<byte>, heapc: nat, l: Layout, j: nat, size: nat)
    requires Holds(m, heapc, l) && j < |l.F| && size > HEADER && Fits(l, size, j) && l.Gap(j) - size > HEADER
    ensures RestClear(heapc, l.F, j, l.F[j] + size)
  {
    GapNeighbours(l, j);
    forall i {:trigger Link(heapc + 4, l.F, i)} | 0 <= i <= |l.F| && i != j + 1
      ensures Apart(l.F[j] + size, Link(heapc + 4, l.F, i))
    {
      if i > 0 {
        GapNeighbours(l, i - 1);
        GapsApart(l, i - 1, j);
      }
    }
  }

  // ---- free of object i ----

  /** The memory after object `i` is taken out of the allocated list. */
  function UnlinkStores(m: seq<byte>, heapc: nat, l: Layout, i: nat): (m': seq<byte>)
    requires i < |l.A|
    ensures |m'| == |m|
  {
    Store(m, Link(heapc, l.A, i), Target(l.A, i + 1))
  }

  /** Then the free list is extended, by the case analysis of `free`; `j` free headers lie below the object. */
  function FreeStores(m: seq<byte>, heapc: nat, F: seq<nat>, a: nat, j: nat, left: bool, right: bool): (m': seq<byte>)
    requires j <= |F| && (right ==> j < |F|)
    ensures |m'| == |m|
  {
    hide Store;
    var link := Link(heapc + 4, F, j);
    if left then
      if right then Store(m, link, Target(F, j + 1)) else m
    else
      Store(Store(m, a, if right then Target(F, j + 1) else Target(F, j)), link, a)
  }

  /** The free headers once object `i` is released, in terms of the old ones. */
  function FreeHeaders(F: seq<nat>, a: nat, j: nat, left: bool, right: bool): seq<nat>
    requires j <= |F| && (right ==> j < |F|)
  {
    if left then
      if right then Remove(F, j) else F
    else
      if right then F[j := a] else Insert(F, j, a)
  }

  lemma ReleaseLists(l: Layout, i: nat, j: nat)
    requires SplitAt(l, i, j)
    ensures var p := Release(l, i, j);
      && p.base == l.base && p.limit == l.limit && p.A == Remove(l.A, i)
      && p.F == FreeHeaders(l.F, l.A[i], j, LeftFree(l, i, j), RightFree(l, i, j))
  {
  }

  /** Each of the four cases leaves both lists right. */
  lemma FreeListsHold(m: seq<byte>, heapc: nat, A: seq<nat>, F: seq<nat>, a: nat, j: nat, left: bool, right: bool)
    requires Linked(m, heapc, A) && Linked(m, heapc + 4, F) && j <= |F|
    requires Addressable(m, a) && a < WORD_LIMIT && (forall k :: 0 <= k < |F| ==> F[k] < WORD_LIMIT)
    requires (left ==> j > 0) && (right ==> j < |F|)
    requires Outside(a, heapc, A) && Outside(a, heapc + 4, F)
    requires CrossApart(heapc, A, F) && CrossApart(heapc, A, FreeHeaders(F, a, j, left, right))
    ensures var m' := FreeStores(m, heapc, F, a, j, left, right);
      Linked(m', heapc, A) && Linked(m', heapc + 4, FreeHeaders(F, a, j, left, right))
  {
    hide Load, Store;
    if left && right {
      FreeDropped(m, heapc, A, F, j);
    } else if !left && right {
      FreeReplaced(m, heapc, A, F, j, a);
    } else if !left && !right {
      InsertLinked(m, heapc + 4, F, j, a);
      StoreOutside(m, heapc, A, -1, a, Target(F, j));
      StoreOutside(Store(m, a, Target(F, j)), heapc, A, -1, Link(heapc + 4, F, j), a);
    }
  }

  /** What holds between unlinking the object and extending the free list. */
  lemma Unlinked(m: seq<byte>, heapc: nat, l: Layout, i: nat)
    requires Holds(m, heapc, l) && i < |l.A|
    ensures var m1, A := UnlinkStores(m, heapc, l, i), Remove(l.A, i);
      && Linked(m1, heapc, A) && Linked(m1, heapc + 4, l.F) && CrossApart(heapc, A, l.F)
      && Addressable(m1, l.A[i]) && Outside(l.A[i], heapc, A) && Outside(l.A[i], heapc + 4, l.F)
    ensures l.A[i] < WORD_LIMIT && forall k :: 0 <= k < |l.F| ==> l.F[k] < WORD_LIMIT
  {
    hide Load, Store, LinkedBut;
    ListsApart(m, heapc, l);
    assert l.A[i] == Link(heapc, l.A, i + 1);
    RemovedApart(m, heapc, l.A, l.F, i);
    LinkedButAny(m, heapc, l.A, i + 1);
    RemoveLinked(m, heapc, l.A, i);
    StoreOutside(m, heapc + 4, l.F, -1, Link(heapc, l.A, i), Target(l.A, i + 1));
    forall k | 0 <= k < |l.F|
      ensures l.F[k] < WORD_LIMIT
    {
      GapNeighbours(l, k);
    }
  }

  lemma LinkedButAny(m: seq<byte>, root: nat, s: seq<nat>, skip: int)
    requires Linked(m, root, s)
    ensures LinkedBut(m, root, s, skip)
  {
  }

  /** Links of the list without header `i` are links of the list. */
  lemma RemovedApart(m: seq<byte>, heapc: nat, A: seq<nat>, F: seq<nat>, i: nat)
    requires i < |A| && Spread(m, heapc, A) && CrossApart(heapc, A, F)
    ensures CrossApart(heapc, Remove(A, i), F) && Outside(A[i], heapc, Remove(A, i))
  {
    var A' := Remove(A, i);
    assert A[i] == Link(heapc, A, i + 1);
    forall k {:trigger Link(heapc, A', k)} | 0 <= k <= |A'|
      ensures Link(heapc, A', k) == Link(heapc, A, if k <= i then k else k + 1)
    {
    }
  }

  lemma ReleaseHolds(m: seq<byte>, heapc: nat, l: Layout, i: nat, j: nat)
    requires Holds(m, heapc, l) && SplitAt(l, i, j) && |l.A| > 1
    ensures var m1 := UnlinkStores(m, heapc, l, i);
      && l.A[i] < WORD_LIMIT && Addressable(m1, l.A[i]) && Spread(m1, heapc + 4, l.F)
      && (forall k :: 0 <= k < |l.F| ==> l.F[k] < WORD_LIMIT)
      && Holds(FreeStores(m1, heapc, l.F, l.A[i], j, LeftFree(l, i, j), RightFree(l, i, j)), heapc, Release(l, i, j))
  {
    hide Load, Store, Release, LinkedBut, Insert, Remove;
    var p := Release(l, i, j);
    ReleaseValid(l, i, j);
    ReleaseLists(l, i, j);
    ListsApart(m, heapc, p);
    Unlinked(m, heapc, l, i);
    FreeListsHold(UnlinkStores(m, heapc, l, i), heapc, p.A, l.F, l.A[i], j, LeftFree(l, i, j), RightFree(l, i, j));
  }

  // ---- the first object of a new block ----

  function FirstLayout(base: nat, limit: nat, size: nat): Layout
    requires base + size <= limit
  {
    if limit - base - size > HEADER then Layout(base, limit, [base], [base + size], [1])
    else Layout(base, limit, [base], [], [])
  }

  /** Behind the first object all bytes are free, if more than a header is left, and no other byte is. */
  ghost predicate RestFree(l: Layout, base: nat, limit: nat, size: nat) {
    && |l.F| == |l.S| && l.A == [base] && l.base == base && l.limit == limit
    && forall x :: FreeByte(l, x) <==> base + size <= x < limit && limit - (base + size) > 4
  }

  lemma FirstFrees(base: nat, limit: nat, size: nat)
    requires base + size <= limit
    ensures RestFree(FirstLayout(base, limit, size), base, limit, size)
  {
    var l := FirstLayout(base, limit, size);
    forall x
      ensures FreeByte(l, x) <==> base + size <= x < limit && limit - (base + size) > 4
    {
      if base + size <= x < limit && limit - (base + size) > 4 {
        assert InGap(l, 0, x);
      }
    }
  }

  /** A layout whose free bytes are those is the one with the region behind the object as its only gap, if there is one. */
  lemma OnlyGap(l: Layout, base: nat, limit: nat, size: nat)
    requires l.Valid() && RestFree(l, base, limit, size)
    ensures limit - (base + size) > 4 ==> l.F == [base + size] && l.S == [1] && l.Gap(0) == limit - (base + size)
    ensures limit - (base + size) <= 4 ==> l.F == []
  {
    if l.F != [] {
      GapNeighbours(l, 0);
      assert InGap(l, 0, l.F[0]) && InGap(l, 0, l.GapEnd(0) - 1);
      assert FreeByte(l, l.F[0]) && FreeByte(l, l.GapEnd(0) - 1);
      OneGap(l, base, limit, size);
    }
    if limit - (base + size) > 4 {
      assert FreeByte(l, base + size);
    }
  }

  lemma OneGap(l: Layout, base: nat, limit: nat, size: nat)
    requires l.Valid() && RestFree(l, base, limit, size) && l.F != []
    ensures |l.F| == 1 && l.F[0] == base + size && l.S == [1] && l.GapEnd(0) == limit
  {
    forall k | 0 <= k < |l.F|
      ensures l.S[k] == 1
    {
      SlotAtEnd(l, base, limit, size, k);
    }
    if |l.F| > 1 {
      SlotsDiffer(l);
      assert false;
    }
    SlotAtEnd(l, base, limit, size, 0);
    assert FreeByte(l, base + size);
    var j :| 0 <= j < |l.F| && InGap(l, j, base + size);
  }

  lemma SlotsDiffer(l: Layout)
    requires l.Valid() && |l.S| > 1
    ensures l.S[0] != l.S[1]
  {
  }

  lemma SlotAtEnd(l: Layout, base: nat, limit: nat, size: nat, k: nat)
    requires l.Valid() && RestFree(l, base, limit, size) && k < |l.F|
    ensures l.S[k] == 1 && l.GapEnd(k) == limit && base + size <= l.F[k] < limit && limit - (base + size) > 4
  {
    GapNeighbours(l, k);
    assert InGap(l, k, l.F[k]);
    assert FreeByte(l, l.F[k]);
  }

  function FirstStores(m: seq<byte>, heapc: nat, base: nat, limit: nat, size: nat): (m': seq<byte>)
    ensures |m'| == |m|
  {
    hide Store;
    var m2 := Store(Store(m, heapc, base), base, 0);
    if limit - base - size > HEADER then Store(Store(m2, heapc + 4, base + size), base + size, 0)
    else m2
  }

  lemma FirstHolds(m: seq<byte>, heapc: nat, base: nat, limit: nat, size: nat)
    requires Addressable(m, heapc) && Addressable(m, heapc + 4) && MEMORY_BASE + |m| <= WORD_LIMIT
    requires MEMORY_BASE <= base && base + size <= limit <= MEMORY_BASE + |m| && size > HEADER
    requires heapc + 8 <= base || limit <= heapc
    requires Load(m, heapc + 4) == 0
    ensures Holds(FirstStores(m, heapc, base, limit, size), heapc, FirstLayout(base, limit, size))
  {
    hide Load, Store, Linked, Layout.Valid;
    var l, m1 := FirstLayout(base, limit, size), Store(m, heapc, base);
    var m2 := Store(m1, base, 0);
    FirstValid(base, limit, size);
    LoadStored(m, heapc, base);
    LoadOther(m1, base, 0, heapc);
    LoadStored(m1, base, 0);
    LoadOther(m, heapc, base, heapc + 4);
    LoadOther(m1, base, 0, heapc + 4);
    if limit - base - size > HEADER {
      var y := base + size;
      var m3 := Store(m2, heapc + 4, y);
      LoadOther(m2, heapc + 4, y, heapc);
      LoadOther(m2, heapc + 4, y, base);
      LoadOther(m3, y, 0, heapc);
      LoadOther(m3, y, 0, base);
      LoadStored(m2, heapc + 4, y);
      LoadOther(m3, y, 0, heapc + 4);
      LoadStored(m3, y, 0);
      LinkedOne(Store(m3, y, 0), heapc, base);
      LinkedOne(Store(m3, y, 0), heapc + 4, y);
    } else {
      LinkedOne(m2, heapc, base);
      LinkedNone(m2, heapc + 4);
    }
  }

  lemma FirstValid(base: nat, limit: nat, size: nat)
    requires base + size <= limit && size > HEADER
    ensures FirstLayout(base, limit, size).Valid()
  {
  }

  /** A list of one header. */
  lemma LinkedOne(m: seq<byte>, root: nat, h: nat)
    requires Addressable(m, root) && Addressable(m, h) && Apart(root, h) && Load(m, root) == h && Load(m, h) == 0
    ensures Linked(m, root, [h])
  {
    hide Load;
    assert Link(root, [h], 0) == root && Link(root, [h], 1) == h;
  }

  lemma LinkedNone(m: seq<byte>, root: nat)
    requires Addressable(m, root) && Load(m, root) == 0
    ensures Linked(m, root, [])
  {
    hide Load;
  }
}
