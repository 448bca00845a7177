/** Neither `malloc` nor `free` touches the payload of a live object. */
module HeapPayload {
  import opened Basics
  import opened HeapLayout
  import opened RawMemory
  import opened HeapMemory

  /** Object `a` was given `size` bytes, header included, and no other header lies in them. */
  ghost predicate Owns(l: Layout, a: nat, size: nat) {
    && a in l.A && size > HEADER && l.base <= a && a + size <= l.limit
    && (forall i :: 0 <= i < |l.A| ==> l.A[i] <= a || a + size <= l.A[i])
    && (forall k :: 0 <= k < |l.F| ==> l.F[k] <= a || a + size <= l.F[k])
  }

  ghost predicate OwnAll(l: Layout, sizes: map<nat, nat>) {
    && (forall a :: a in sizes <==> a in l.A)
    && (forall a :: a in sizes ==> Owns(l, a, sizes[a]))
  }

  /** The payload bytes of an object are the same in both memories. */
  ghost predicate SamePayload(m: seq<byte>, m': seq<byte>, a: nat, size: nat) {
    && |m| == |m'| && MEMORY_BASE <= a && a + size <= MEMORY_BASE + |m|
    && forall x :: a + HEADER - MEMORY_BASE <= x < a + size - MEMORY_BASE ==> m'[x] == m[x]
  }

  /** A header at `h` does not overlap the payload of `a`. */
  predicate Clear(h: nat, a: nat, size: nat) {
    h <= a || a + size <= h
  }

  lemma StoreClear(m: seq<byte>, m': seq<byte>, h: nat, v: nat, a: nat, size: nat)
    requires SamePayload(m, m', a, size) && Addressable(m', h) && v < WORD_LIMIT && Clear(h, a, size)
    ensures SamePayload(m, Store(m', h, v), a, size)
  {
    hide Store;
    forall x | a + HEADER - MEMORY_BASE <= x < a + size - MEMORY_BASE
      ensures Store(m', h, v)[x] == m[x]
    {
      StoreLocal(m', h, v, x);
    }
  }

  /** Every link of both lists is clear of every payload. */
  lemma LinksClear(m: seq<byte>, heapc: nat, l: Layout, a: nat, size: nat)
    requires InMemory(m, heapc, l) && l.Valid() && Owns(l, a, size)
    ensures forall i {:trigger Link(heapc, l.A, i)} :: 0 <= i <= |l.A| ==> Clear(Link(heapc, l.A, i), a, size)
    ensures forall k {:trigger Link(heapc + 4, l.F, k)} :: 0 <= k <= |l.F| ==> Clear(Link(heapc + 4, l.F, k), a, size)
    ensures SamePayload(m, m, a, size)
  {
  }

  /** The bytes of a gap are clear of every payload. */
  lemma GapClear(l: Layout, j: nat, a: nat, size: nat, h: nat)
    requires l.Valid() && j < |l.F| && Owns(l, a, size) && l.F[j] <= h < l.GapEnd(j)
    ensures Clear(h, a, size)
  {
    GapNeighbours(l, j);
    var i :| 0 <= i < |l.A| && l.A[i] == a;
  }

  lemma PlaceKeepsPayload(m: seq<byte>, heapc: nat, l: Layout, j: nat, size: nat, a: nat, sz: nat)
    requires Holds(m, heapc, l) && j < |l.F| && size > HEADER && Fits(l, size, j) && Owns(l, a, sz)
    ensures SamePayload(m, PlaceStores(m, heapc, l, j, size), a, sz)
  {
    hide Store, Load, Clear, Owns, SamePayload;
    ListsApart(m, heapc, l);
    GapNeighbours(l, j);
    LinksClear(m, heapc, l, a, sz);
    var bestFree, bestAlloc, bestPrev := l.F[j], Link(heapc, l.A, l.S[j]), Link(heapc + 4, l.F, j);
    assert bestFree == Link(heapc + 4, l.F, j + 1);
    var next := Target(l.F, j + 1);
    var m1 := Store(m, bestFree, Target(l.A, l.S[j]));
    StoreClear(m, m, bestFree, Target(l.A, l.S[j]), a, sz);
    var m2 := Store(m1, bestAlloc, bestFree);
    StoreClear(m, m1, bestAlloc, bestFree, a, sz);
    if l.Gap(j) - size > HEADER {
      GapClear(l, j, a, sz, bestFree + size);
      StoreClear(m, m2, bestFree + size, next, a, sz);
      StoreClear(m, Store(m2, bestFree + size, next), bestPrev, bestFree + size, a, sz);
    } else {
      StoreClear(m, m2, bestPrev, next, a, sz);
    }
  }

  /** The new object owns its bytes, and every other object keeps its own. */
  lemma PlaceOwns(l: Layout, j: nat, size: nat, sizes: map<nat, nat>)
    requires l.Valid() && j < |l.F| && size > HEADER && Fits(l, size, j) && OwnAll(l, sizes)
    ensures l.F[j] !in sizes && OwnAll(Place(l, j, size), sizes[l.F[j] := size])
  {
    SlotInRange(l, j);
    hide *;
    var p := Place(l, j, size);
    PlaceView(l, j, size);
    PlacedMembers(l, j, size, p);
    OwnersAre(l, sizes);
    forall a | a in sizes
      ensures Owns(p, a, sizes[a])
    {
      OwnerAt(l, sizes, a);
      PlacedOther(l, j, size, p, a, sizes[a]);
    }
    PlacedNew(l, j, size, p);
    OwnAllFrom(p, sizes[l.F[j] := size]);
  }

  lemma SlotInRange(l: Layout, j: nat)
    requires l.Valid() && j < |l.F|
    ensures |l.F| == |l.S| && l.S[j] <= |l.A|
  {
  }

  lemma SplitInRange(l: Layout, i: nat, j: nat)
    requires SplitAt(l, i, j)
    ensures i < |l.A| && |l.F| == |l.S| && j <= |l.S| && forall k :: j <= k < |l.S| ==> l.S[k] > i
  {
  }

  lemma OwnersAre(l: Layout, sizes: map<nat, nat>)
    requires OwnAll(l, sizes)
    ensures forall a :: a in sizes <==> a in l.A
  {
  }

  lemma OwnerAt(l: Layout, sizes: map<nat, nat>, a: nat)
    requires OwnAll(l, sizes) && a in sizes
    ensures Owns(l, a, sizes[a])
  {
  }

  lemma OwnAllFrom(l: Layout, sizes: map<nat, nat>)
    requires (forall a :: a in sizes <==> a in l.A) && forall a :: a in sizes ==> Owns(l, a, sizes[a])
    ensures OwnAll(l, sizes)
  {
  }

  lemma PlacedMembers(l: Layout, j: nat, size: nat, p: Layout)
    requires l.Valid() && j < |l.F| && Placed(l, j, size, p)
    ensures forall a :: a in p.A <==> a in l.A || a == l.F[j]
    ensures l.F[j] !in l.A
  {
    GapNeighbours(l, j);
    forall a | a in l.A
      ensures a in p.A
    {
      var i :| 0 <= i < |l.A| && l.A[i] == a;
      assert p.A[if i < l.S[j] then i else i + 1] == a;
    }
    assert p.A[l.S[j]] == l.F[j];
  }

  lemma PlacedOther(l: Layout, j: nat, size: nat, p: Layout, a: nat, sz: nat)
    requires l.Valid() && j < |l.F| && size > HEADER && Fits(l, size, j) && Placed(l, j, size, p) && Owns(l, a, sz)
    requires a in p.A
    ensures Owns(p, a, sz)
  {
    GapClear(l, j, a, sz, l.F[j]);
    if l.Gap(j) - size > HEADER {
      GapClear(l, j, a, sz, l.F[j] + size);
    }
  }

  lemma PlacedNew(l: Layout, j: nat, size: nat, p: Layout)
    requires l.Valid() && j < |l.F| && size > HEADER && Fits(l, size, j) && Placed(l, j, size, p)
    requires l.F[j] in p.A
    ensures Owns(p, l.F[j], size)
  {
    GapNeighbours(l, j);
    forall k | 0 <= k < |p.F|
      ensures p.F[k] <= l.F[j] || l.F[j] + size <= p.F[k]
    {
      var q := if l.Gap(j) - size > HEADER || k < j then k else k + 1;
      GapsApart(l, q, j);
      GapNeighbours(l, q);
    }
  }

  lemma ReleaseKeepsPayload(m: seq<byte>, heapc: nat, l: Layout, i: nat, j: nat, a: nat, sz: nat)
    requires Holds(m, heapc, l) && SplitAt(l, i, j) && Owns(l, a, sz)
    ensures var m1 := UnlinkStores(m, heapc, l, i);
      && l.A[i] < WORD_LIMIT && Addressable(m1, l.A[i]) && Spread(m1, heapc + 4, l.F)
      && (forall k :: 0 <= k < |l.F| ==> l.F[k] < WORD_LIMIT)
      && SamePayload(m, m1, a, sz)
      && SamePayload(m, FreeStores(m1, heapc, l.F, l.A[i], j, LeftFree(l, i, j), RightFree(l, i, j)), a, sz)
  {
    hide Store, Load, Clear, Owns, SamePayload;
    ListsApart(m, heapc, l);
    LinksClear(m, heapc, l, a, sz);
    Unlinked(m, heapc, l, i);
    var m1, x, link := UnlinkStores(m, heapc, l, i), l.A[i], Link(heapc + 4, l.F, j);
    assert x == Link(heapc, l.A, i + 1);
    StoreClear(m, m, Link(heapc, l.A, i), Target(l.A, i + 1), a, sz);
    if LeftFree(l, i, j) {
      if RightFree(l, i, j) {
        StoreClear(m, m1, link, Target(l.F, j + 1), a, sz);
      }
    } else {
      var v := if RightFree(l, i, j) then Target(l.F, j + 1) else Target(l.F, j);
      StoreClear(m, m1, x, v, a, sz);
      StoreClear(m, Store(m1, x, v), link, x, a, sz);
    }
  }

  lemma ReleaseOwns(l: Layout, i: nat, j: nat, sizes: map<nat, nat>)
    requires l.Valid() && SplitAt(l, i, j) && OwnAll(l, sizes)
    ensures OwnAll(Release(l, i, j), sizes - {l.A[i]})
  {
    SplitInRange(l, i, j);
    hide *;
    var p := Release(l, i, j);
    ReleaseView(l, i, j);
    ReleasedMembers(l, i, j, p);
    OwnersAre(l, sizes);
    forall a | a in sizes && a != l.A[i]
      ensures Owns(p, a, sizes[a])
    {
      OwnerAt(l, sizes, a);
      ReleasedOther(l, i, j, p, a, sizes[a]);
    }
    OwnAllFrom(p, sizes - {l.A[i]});
  }

  lemma ReleasedMembers(l: Layout, i: nat, j: nat, p: Layout)
    requires l.Valid() && SplitAt(l, i, j) && Released(l, i, j, p)
    ensures forall a :: a in p.A <==> a in l.A && a != l.A[i]
  {
    forall a | a in l.A && a != l.A[i]
      ensures a in p.A
    {
      var t :| 0 <= t < |l.A| && l.A[t] == a;
      assert p.A[if t < i then t else t - 1] == a;
    }
  }

  lemma ReleasedOther(l: Layout, i: nat, j: nat, p: Layout, a: nat, sz: nat)
    requires l.Valid() && SplitAt(l, i, j) && Released(l, i, j, p) && Owns(l, a, sz) && a in p.A
    ensures Owns(p, a, sz)
  {
  }

  lemma FirstOwns(base: nat, limit: nat, size: nat)
    requires size > HEADER && base + size <= limit
    ensures OwnAll(FirstLayout(base, limit, size), map[base := size])
  {
  }
}
