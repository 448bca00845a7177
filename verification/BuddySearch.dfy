/**
  What `buddy_alloc` and `buddy_free` are meant to do to the live blocks, the bitmap and the page
  tables, and why each step of their loops does it.
 */
module BuddySearch {
  import opened Bitmap
  import opened BuddyTree
  import opened BuddyGeometry
  import opened BuddyMarks

  const BUDDY_ALLOC_VIRADR: nat := 0x8000_0000
  const PAGE_FLAGS: nat := 3 // present, read/write

  /** The deepest layer whose blocks still hold `size` bytes, by doubling from the smallest block. */
  function FitLayer(g: Geometry, size: nat): (k: nat)
    requires g.Valid() && size <= g.maxBlock
    ensures k < g.layers && size <= g.BlockSize(k)
    ensures forall j :: k < j < g.layers ==> g.BlockSize(j) < size
  {
    FitFrom(g, size, g.layers - 1)
  }

  function FitFrom(g: Geometry, size: nat, layer: nat): (k: nat)
    requires g.Valid() && size <= g.maxBlock && layer < g.layers
    requires forall j :: layer < j < g.layers ==> g.BlockSize(j) < size
    ensures k < g.layers && size <= g.BlockSize(k)
    ensures forall j :: k < j < g.layers ==> g.BlockSize(j) < size
    decreases layer
  {
    if g.BlockSize(layer) < size && layer > 0 then FitFrom(g, size, layer - 1) else layer
  }

  /** The block a request is carved from: deepest maximal free block that fits, lowest address first. */
  ghost predicate Chosen(live: set<Node>, layers: nat, k: nat, f: Node) {
    && InTree(f, layers) && f.layer <= k && MaximalFree(live, f)
    && forall g :: InTree(g, layers) && g.layer <= k && MaximalFree(live, g) ==>
         g.layer < f.layer || (g.layer == f.layer && f.idx <= g.idx)
  }

  ghost predicate NoFreeBlock(live: set<Node>, layers: nat, k: nat) {
    forall n :: InTree(n, layers) && n.layer == k ==> !Free(live, n)
  }

  /** A layer has a free block exactly when some maximal free block at or above it exists. */
  lemma NoFreeIffNoMaximal(live: set<Node>, layers: nat, k: nat)
    requires Separate(live, layers) && k < layers
    ensures NoFreeBlock(live, layers, k) <==>
            forall f :: InTree(f, layers) && f.layer <= k ==> !MaximalFree(live, f)
  {
    if !NoFreeBlock(live, layers, k) {
      var n :| InTree(n, layers) && n.layer == k && Free(live, n);
      var f := MaximalFreeAround(live, layers, n);
      AboveLayer(f, n);
    }
    forall f | InTree(f, layers) && f.layer <= k && MaximalFree(live, f)
      ensures !NoFreeBlock(live, layers, k)
    {
      LeftmostBelow(f, k, layers);
      FreeDown(live, f, Leftmost(f, k));
    }
  }

  /** State of the descent: marks of the live blocks, plus the nodes on the way from `f` down to `c`. */
  ghost predicate Descending(live: set<Node>, f: Node, c: Node, x: Node) {
    Marked(live, x) || (Above(f, x) && Above(x, c) && x != c)
  }

  lemma DescentDone(live: set<Node>, layers: nat, f: Node, r: Node, x: Node)
    requires Separate(live, layers) && InTree(f, layers) && MaximalFree(live, f) && Above(f, r)
    ensures Marked(live + {r}, x) <==> Descending(live, f, r, x) || x == r
  {
    MarkedAdd(live, r, x);
    if Above(x, r) && !Above(f, x) {
      if x.layer <= f.layer {
        AboveChain(x, f, r);
        AboveMaximalMarked(live, layers, f, x);
      } else {
        AboveChain(f, x, r);
      }
    }
    assert Above(r, r);
  }

  lemma DescentStep(live: set<Node>, f: Node, c: Node, child: Node, x: Node)
    requires child.layer > 0 && Parent(child) == c && Above(f, c)
    ensures Descending(live, f, child, x) <==> Descending(live, f, c, x) || x == c
  {
    AboveSelfParent(child);
    if Above(x, c) {
      AboveTrans(x, c, child);
      AboveLayer(x, c);
    }
    assert Above(c, c);
  }

  /** Below the current node of the descent nothing is marked. */
  lemma DescentFresh(live: set<Node>, f: Node, c: Node, x: Node)
    requires Free(live, f) && Above(f, c) && (Above(c, x) || (x.layer == c.layer && x.layer > 0 && Above(f, Parent(x))))
    ensures !Descending(live, f, c, x)
  {
    if Above(c, x) {
      AboveTrans(f, c, x);
      if Above(x, c) {
        AboveLayer(x, c);
        AboveLayer(c, x);
      }
    } else {
      AboveSelfParent(x);
      AboveTrans(f, Parent(x), x);
      if Above(x, c) {
        AboveLayer(x, c);
      }
    }
    FreeDown(live, f, x);
  }

  /** Slot of the page tables that `(address >> 22 << 10) + ((address >> 12) & 0x3FF)` selects. */
  function PageSlot(address: nat): (p: nat)
    ensures p == address / PAGE
  {
    var d := address / PAGE;
    assert address / 0x40_0000 == d / 1024;
    address / 0x40_0000 * 1024 + address / PAGE % 1024
  }

  /** Page `p` of the arena lies in the block of `n`. */
  ghost predicate OwnsPage(g: Geometry, n: Node, p: nat)
    requires n.layer < g.layers
  {
    g.Offset(n) <= PAGE * p < g.End(n)
  }

  lemma PageAligned(g: Geometry, n: Node)
    requires n.layer < g.layers && g.minBlock % PAGE == 0
    ensures g.Offset(n) % PAGE == 0 && g.BlockSize(n.layer) % PAGE == 0
  {
    ShlAligned(g.minBlock, g.layers - 1 - n.layer);
    var u := g.BlockSize(n.layer) / PAGE;
    assert g.Offset(n) == (n.idx * u) * PAGE;
  }

  lemma {:induction false} ShlAligned(v: nat, k: nat)
    requires v % PAGE == 0
    ensures Shl(v, k) % PAGE == 0
  {
    if k > 0 {
      ShlAligned(v, k - 1);
      DoubleAligned(Shl(v, k - 1));
      assert Shl(v, k) == 2 * Shl(v, k - 1);
    }
  }

  lemma DoubleAligned(w: nat)
    requires w % PAGE == 0
    ensures 2 * w % PAGE == 0
  {
    var q := w / PAGE;
    assert 2 * w == PAGE * (2 * q);
  }

  /** The page table entry of page `p` of the arena once it is mapped. */
  function MappedEntry(g: Geometry, p: nat): nat {
    g.start + PAGE * p + PAGE_FLAGS
  }

  /** Every page of a live block is mapped to its own place in the arena, if blocks consist of whole pages. */
  ghost predicate Mapped(g: Geometry, live: set<Node>, entries: seq<nat>)
    requires Separate(live, g.layers)
  {
    g.minBlock % PAGE == 0 ==>
      forall n, p :: n in live && 0 <= p < |entries| && OwnsPage(g, n, p) ==> entries[p] == MappedEntry(g, p)
  }

  /** The page table entries of one block set up or cleared, all others as before. */
  ghost predicate BlockRemapped(g: Geometry, n: Node, before: seq<nat>, after: seq<nat>, mapped: bool)
    requires n.layer < g.layers
  {
    && |before| == |after|
    && forall p :: 0 <= p < |after| ==>
         after[p] ==
           if !InPages(g.Offset(n), g.BlockSize(n.layer), p) then before[p]
           else if mapped then MappedEntry(g, p) else PAGE_FLAGS
  }

  lemma SmallestBlockIndex(g: Geometry, n: Node)
    requires g.Valid() && InTree(n, g.layers)
    ensures g.Offset(n) / g.minBlock == Leftmost(n, g.layers - 1).idx
  {
    LeftmostSpan(n, g.layers - 1, g);
    var i := Leftmost(n, g.layers - 1).idx;
    assert g.BlockSize(g.layers - 1) == g.minBlock;
    Quotient(i, g.minBlock);
  }

  lemma Quotient(i: nat, m: nat)
    requires m > 0
    ensures i * m / m == i
  {
    var q := i * m / m;
    assert i * m == q * m + i * m % m;
    if q != i {
      Multiples(q, i, m);
    }
  }

  lemma UnmapBlock(g: Geometry, live: set<Node>, n: Node, f: Node, before: seq<nat>, after: seq<nat>)
    requires Separate(live, g.layers) && n in live && InTree(f, g.layers) && MaximalFree(live - {n}, f)
    requires Mapped(g, live, before) && BlockRemapped(g, f, before, after, false)
    ensures Separate(live - {n}, g.layers) && Mapped(g, live - {n}, after)
  {
    RemoveSeparate(live, g.layers, n);
    if g.minBlock % PAGE == 0 {
      forall m, p | m in live - {n} && 0 <= p < |after| && OwnsPage(g, m, p)
        ensures after[p] == MappedEntry(g, p)
      {
        PagesApart(g, m, f, p);
      }
    }
  }

  lemma OwnerMark(s: seq<bv8>, live: set<Node>, layers: nat, n: Node, c: Node)
    requires Represents(s, live, layers) && Separate(live, layers) && n in live
    requires InTree(c, layers) && Above(n, c)
    ensures MarkAt(s, layers, c) <==> c == n
  {
    hide MarkAt;
    assert Above(n, n);
    if Marked(live, c) {
      var m :| m in live && Above(c, m);
      AboveTrans(n, c, m);
      AboveLayer(c, m);
      AboveLayer(n, c);
    }
  }

  /** State of the coalescing at `c`: what is left to clear lies strictly above `c`. */
  ghost predicate Climbing(s: seq<bv8>, live: set<Node>, layers: nat, n: Node, c: Node)
    requires Shape(s, layers)
  {
    && TailClear(s, layers) && Separate(live, layers) && n in live && InTree(c, layers) && Above(c, n)
    && Free(live - {n}, c)
    && forall x :: InTree(x, layers) ==>
         (MarkAt(s, layers, x) <==> Marked(live - {n}, x) || (Above(x, c) && x != c))
  }

  lemma InRepresents(s: seq<bv8>, live: set<Node>, layers: nat)
    requires Represents(s, live, layers)
    ensures Shape(s, layers)
  {
  }

  lemma CoalesceStarts(s: seq<bv8>, live: set<Node>, layers: nat, n: Node)
    requires Represents(s, live, layers) && Separate(live, layers) && n in live
    ensures InTree(n, layers) && Climbing(WithMark(s, layers, n, false), live, layers, n, n)
  {
    hide MarkAt, WithMark;
    RemoveSeparate(live, layers, n);
    WithMarkRead(s, layers, n, false);
    forall x {
      MarkedRemove(live, layers, n, x);
    }
    assert Above(n, n);
  }

  ghost predicate OtherLive(live: set<Node>, n: Node) {
    exists m :: m in live && m != n
  }

  lemma NothingBelowFreeRoot(live: set<Node>, layers: nat)
    requires Separate(live, layers) && Free(live, Node(0, 0))
    ensures live == {}
  {
    if live != {} {
      var m :| m in live;
      RootAbove(m, layers);
    }
  }

  lemma OtherLiveIff(live: set<Node>, n: Node)
    requires n in live
    ensures OtherLive(live, n) <==> live - {n} != {}
  {
    if OtherLive(live, n) {
      var m :| m in live && m != n;
      assert m in live - {n};
    } else {
      assert live - {n} == {};
    }
  }

  /** At the root the coalescing finds every bit clear: no other block is live. */
  lemma CoalesceAtRoot(s: seq<bv8>, live: set<Node>, layers: nat, n: Node, c: Node)
    requires Shape(s, layers) && Climbing(s, live, layers, n, c) && c.layer == 0
    ensures c == Node(0, 0) && !PairMarked(s, layers, c)
    ensures live - {n} == {} && !OtherLive(live, n) && Represents(s, live - {n}, layers)
  {
    RootChildren(layers);
    hide MarkAt;
    assert c == Node(0, 0) by { assert Pow2(0) == 1; }
    NothingBelowFreeRoot(live - {n}, layers);
    OtherLiveIff(live, n);
    forall x | Above(x, c)
      ensures x == c
    {
      AboveLayer(x, c);
    }
  }

  /** Both halves of the arena are marked. */
  ghost predicate HalvesMarked(s: seq<bv8>, layers: nat)
    requires layers >= 2 && Shape(s, layers)
  {
    hide MarkAt;
    RootChildren(layers);
    MarkAt(s, layers, Node(1, 0)) && MarkAt(s, layers, Node(1, 1))
  }

  /** One of the two buddies at `c` is marked; at the root, where bits 0 and 1 are tested, the root or its first half. */
  ghost predicate PairMarked(s: seq<bv8>, layers: nat, c: Node)
    requires Shape(s, layers) && InTree(c, layers)
  {
    hide MarkAt;
    if c.layer == 0 then
      RootChildren(layers);
      MarkAt(s, layers, Node(0, 0)) || MarkAt(s, layers, Node(1, 0))
    else
      BuddyFacts(c, layers);
      MarkAt(s, layers, c) || MarkAt(s, layers, Buddy(c))
  }

  lemma PairAtRoot(s: seq<bv8>, layers: nat, c: Node)
    requires layers >= 2 && Shape(s, layers) && InTree(c, layers) && c.layer == 0
    ensures InTree(Node(0, 0), layers) && InTree(Node(1, 0), layers)
    ensures PairMarked(s, layers, c) <==> MarkAt(s, layers, Node(0, 0)) || MarkAt(s, layers, Node(1, 0))
  {
    RootChildren(layers);
    hide MarkAt;
  }

  lemma PairAt(s: seq<bv8>, layers: nat, c: Node)
    requires Shape(s, layers) && InTree(c, layers) && c.layer > 0
    ensures InTree(Buddy(c), layers)
    ensures PairMarked(s, layers, c) <==> MarkAt(s, layers, c) || MarkAt(s, layers, Buddy(c))
  {
    BuddyFacts(c, layers);
    hide MarkAt;
  }

  /** With no block of the whole arena free, the root is marked. */
  lemma RootMarked(s: seq<bv8>, live: set<Node>, layers: nat)
    requires Represents(s, live, layers) && Separate(live, layers) && NoFreeBlock(live, layers, 0)
    requires InTree(Node(0, 0), layers)
    ensures MarkAt(s, layers, Node(0, 0))
  {
    hide MarkAt;
    var root := Node(0, 0);
    if Covered(live, root) {
      var m :| m in live && Above(m, root);
      assert Marked(live, root);
    }
  }

  lemma CoalesceStep(s: seq<bv8>, live: set<Node>, layers: nat, n: Node, c: Node)
    requires Shape(s, layers) && Climbing(s, live, layers, n, c) && c.layer > 0
    requires InTree(Buddy(c), layers) && !MarkAt(s, layers, Buddy(c)) && InTree(Parent(c), layers)
    ensures Climbing(WithMark(s, layers, Parent(c), false), live, layers, n, Parent(c))
  {
    hide MarkAt, WithMark;
    var p := Parent(c);
    WithMarkRead(s, layers, p, false);
    ParentFreed(live, layers, n, c);
    forall x
      ensures Above(x, c) && x != c <==> Above(x, p)
    {
      StrictlyAbove(x, c);
    }
  }

  lemma StrictlyAbove(x: Node, c: Node)
    requires c.layer > 0
    ensures Above(x, c) && x != c <==> Above(x, Parent(c))
  {
    if Above(x, Parent(c)) {
      AboveLayer(x, Parent(c));
    }
  }

  lemma ParentFreed(live: set<Node>, layers: nat, n: Node, c: Node)
    requires Separate(live, layers) && n in live && InTree(c, layers) && c.layer > 0 && Above(c, n)
    requires Free(live - {n}, c) && !(Marked(live - {n}, Buddy(c)) || (Above(Buddy(c), c) && Buddy(c) != c))
    ensures Free(live - {n}, Parent(c)) && Above(Parent(c), n)
  {
    var rest := live - {n};
    AboveSelfParent(c);
    AboveTrans(Parent(c), c, n);
    if Covered(rest, Parent(c)) {
      CoveredDown(rest, Parent(c), c);
      assert false;
    }
    if Marked(rest, Parent(c)) {
      MarkFromBuddy(rest, c);
      assert false;
    }
  }

  lemma CoalesceEnds(s: seq<bv8>, live: set<Node>, layers: nat, n: Node, c: Node)
    requires Shape(s, layers) && Climbing(s, live, layers, n, c) && c.layer > 0
    requires InTree(Buddy(c), layers) && (MarkAt(s, layers, c) || MarkAt(s, layers, Buddy(c)))
    ensures Represents(s, live - {n}, layers)
    ensures MaximalFree(live - {n}, c) && Above(c, n) && OtherLive(live, n)
  {
    hide MarkAt;
    var rest := live - {n};
    RemoveSeparate(live, layers, n);
    BuddyFacts(c, layers);
    if Above(Buddy(c), c) {
      AboveLayer(Buddy(c), c);
    }
    MarkedUp(rest, Parent(c), Buddy(c)) by { AboveSelfParent(Buddy(c)); }
    MaximalFreeByMarks(rest, layers, c);
    forall x | Above(x, c) && x != c
      ensures Marked(rest, x)
    {
      StrictlyAbove(x, c);
      MarkedUp(rest, x, Parent(c));
    }
  }

  /** No maximal free block in the layers below `layer`, down to `k`. */
  ghost predicate NoneBelow(live: set<Node>, layers: nat, layer: int, k: nat) {
    forall n :: InTree(n, layers) && layer < n.layer <= k ==> !MaximalFree(live, n)
  }

  /** State of the search at an offered node `c` inside the chosen block `f`. */
  ghost predicate Descent(s: seq<bv8>, live: set<Node>, layers: nat, k: nat, f: Node, c: Node) {
    && Shape(s, layers) && TailClear(s, layers) && Separate(live, layers)
    && Chosen(live, layers, k, f) && f.layer <= c.layer <= k < layers
    && InTree(c, layers) && Above(f, c) && c == Leftmost(f, c.layer)
    && forall x :: InTree(x, layers) ==> (MarkAt(s, layers, x) <==> Descending(live, f, c, x))
  }

  lemma RootChildren(layers: nat)
    requires layers >= 2
    ensures InTree(Node(0, 0), layers) && InTree(Node(1, 0), layers) && InTree(Node(1, 1), layers)
  {
  }

  lemma ArenaTaken(s: seq<bv8>, live: set<Node>, layers: nat, k: nat)
    requires Represents(s, live, layers) && Separate(live, layers) && k < layers
    requires InTree(Node(0, 0), layers) && InTree(Node(1, 0), layers) && InTree(Node(1, 1), layers)
    requires MarkAt(s, layers, Node(0, 0)) && !MarkAt(s, layers, Node(1, 0)) && !MarkAt(s, layers, Node(1, 1))
    ensures NoFreeBlock(live, layers, k)
  {
    RootTaken(live, layers, k);
  }

  lemma NoneBelowLast(live: set<Node>, layers: nat, k: nat)
    ensures NoneBelow(live, layers, k, k)
  {
  }

  lemma NothingFree(live: set<Node>, layers: nat, k: nat)
    requires Separate(live, layers) && k < layers && NoneBelow(live, layers, -1, k)
    ensures NoFreeBlock(live, layers, k)
  {
    NoFreeIffNoMaximal(live, layers, k);
  }

  lemma HalvesTaken(s: seq<bv8>, live: set<Node>, layers: nat, k: nat, layer: nat, searchUp: bool, f: Node, idx: nat)
    requires Shape(s, layers) && Separate(live, layers) && k < layers && layer <= 1
    requires layers >= 2 && HalvesMarked(s, layers)
    requires searchUp ==> Represents(s, live, layers) && NoneBelow(live, layers, layer, k)
    requires !searchUp ==> layer > f.layer && Descent(s, live, layers, k, f, Node(layer, idx))
    ensures searchUp && NoFreeBlock(live, layers, k)
  {
    hide MarkAt;
    RootChildren(layers);
    if searchUp {
      BothTaken(live, layers, k, layer);
    } else {
      HalvesFresh(s, live, layers, k, f, Node(layer, idx));
      assert false;
    }
  }

  lemma BothTaken(live: set<Node>, layers: nat, k: nat, layer: nat)
    requires Separate(live, layers) && k < layers && layer <= 1 && NoneBelow(live, layers, layer, k)
    requires Marked(live, Node(1, 0)) && Marked(live, Node(1, 1))
    ensures NoFreeBlock(live, layers, k)
  {
    assert Above(Node(0, 0), Parent(Node(1, 0)));
    MarkedUp(live, Node(0, 0), Node(1, 0));
    forall n | InTree(n, layers) && n.layer <= 1
      ensures !Free(live, n)
    {
      assert Pow2(0) == 1 && Pow2(1) == 2;
      assert n == Node(0, 0) || n == Node(1, 0) || n == Node(1, 1);
    }
    NothingFree(live, layers, k);
  }

  lemma HalvesFresh(s: seq<bv8>, live: set<Node>, layers: nat, k: nat, f: Node, c: Node)
    requires f.layer < c.layer <= 1 && Descent(s, live, layers, k, f, c) && InTree(Node(1, 0), layers)
    ensures !MarkAt(s, layers, Node(1, 0))
  {
    hide MarkAt;
    assert f == Parent(Node(1, 0));
    DescentFresh(live, f, c, Node(1, 0));
  }

  lemma ScanFailed(s: seq<bv8>, live: set<Node>, layers: nat, k: nat, layer: nat, searchUp: bool, f: Node, idx: nat)
    requires Shape(s, layers) && Separate(live, layers) && layer <= k < layers
    requires searchUp ==> idx == 0 && Represents(s, live, layers) && NoneBelow(live, layers, layer, k)
    requires !searchUp ==> layer > f.layer && Descent(s, live, layers, k, f, Node(layer, idx))
    requires forall j: nat :: idx <= j < Pow2(layer) ==> !Offers(s, layers, Node(layer, j), searchUp)
    ensures searchUp && NoneBelow(live, layers, layer - 1, k)
  {
    hide MarkAt, Offers;
    if searchUp {
      forall n | InTree(n, layers) && layer - 1 < n.layer <= k
        ensures !MaximalFree(live, n)
      {
        if n.layer == layer {
          assert n == Node(layer, n.idx);
          OffersMeaning(s, live, layers, n);
        }
      }
    } else {
      DescentOffers(s, live, layers, k, f, Node(layer, idx));
      assert false;
    }
  }

  lemma DescentOffers(s: seq<bv8>, live: set<Node>, layers: nat, k: nat, f: Node, c: Node)
    requires c.layer > f.layer && Descent(s, live, layers, k, f, c)
    ensures Offers(s, layers, c, false)
  {
    hide MarkAt;
    BuddyFacts(c, layers);
    assert Above(c, c);
    DescentFresh(live, f, c, c);
    AboveChain(f, Parent(c), c);
  }

  lemma ScanFound(s: seq<bv8>, live: set<Node>, layers: nat, k: nat, layer: nat, searchUp: bool, f: Node, idx: nat, here: nat)
    returns (f': Node)
    requires Shape(s, layers) && Separate(live, layers) && layer <= k < layers
    requires searchUp ==> idx == 0 && Represents(s, live, layers) && NoneBelow(live, layers, layer, k)
    requires !searchUp ==> layer > f.layer && Descent(s, live, layers, k, f, Node(layer, idx))
    requires idx <= here < Pow2(layer) && Offers(s, layers, Node(layer, here), searchUp)
    requires forall j: nat :: idx <= j < here ==> !Offers(s, layers, Node(layer, j), searchUp)
    ensures Descent(s, live, layers, k, f', Node(layer, here))
    ensures f'.layer <= layer
  {
    hide MarkAt, Offers, Descent, Shape, Separate, Represents, NoneBelow;
    if searchUp {
      f' := Node(layer, here);
      FoundGoingUp(s, live, layers, k, layer, here);
    } else {
      DescentOffers(s, live, layers, k, f, Node(layer, idx));
      f' := f;
    }
  }

  /** On the way up the first node of a layer that offers itself is the chosen one. */
  lemma FoundGoingUp(s: seq<bv8>, live: set<Node>, layers: nat, k: nat, layer: nat, here: nat)
    requires Shape(s, layers) && Separate(live, layers) && layer <= k < layers
    requires Represents(s, live, layers) && NoneBelow(live, layers, layer, k)
    requires here < Pow2(layer) && Offers(s, layers, Node(layer, here), true)
    requires forall j: nat :: 0 <= j < here ==> !Offers(s, layers, Node(layer, j), true)
    ensures Descent(s, live, layers, k, Node(layer, here), Node(layer, here))
  {
    hide MarkAt, Offers;
    var f := Node(layer, here);
    OffersMeaning(s, live, layers, f);
    forall g | InTree(g, layers) && g.layer <= k && MaximalFree(live, g)
      ensures g.layer < layer || (g.layer == layer && here <= g.idx)
    {
      if g.layer == layer {
        assert g == Node(layer, g.idx);
        OffersMeaning(s, live, layers, g);
      }
    }
    hide Offers, NoneBelow, Free;
    assert Chosen(live, layers, k, f);
    forall x
      ensures Descending(live, f, f, x) <==> Marked(live, x)
    {
      AtMostOne(f, x);
    }
  }

  lemma AtMostOne(f: Node, x: Node)
    ensures Above(f, x) && Above(x, f) ==> x == f
  {
    if Above(f, x) && Above(x, f) {
      AboveLayer(f, x);
      AboveLayer(x, f);
    }
  }

  lemma InDescent(s: seq<bv8>, live: set<Node>, layers: nat, k: nat, f: Node, c: Node)
    requires Descent(s, live, layers, k, f, c)
    ensures Shape(s, layers) && TailClear(s, layers) && Chosen(live, layers, k, f) && MaximalFree(live, f)
    ensures InTree(f, layers) && f.layer <= c.layer <= k
    ensures InTree(c, layers) && Above(f, c) && c == Leftmost(f, c.layer)
    ensures forall x :: InTree(x, layers) ==> (MarkAt(s, layers, x) <==> Descending(live, f, c, x))
    ensures !NoFreeBlock(live, layers, k)
  {
    NoFreeIffNoMaximal(live, layers, k);
  }

  lemma DescentFits(s: seq<bv8>, live: set<Node>, layers: nat, k: nat, f: Node, c: Node)
    requires Descent(s, live, layers, k, f, c)
    ensures Shape(s, layers) && f.layer <= c.layer <= k && !NoFreeBlock(live, layers, k)
  {
    InDescent(s, live, layers, k, f, c);
  }

  lemma DescentMoved(s: seq<bv8>, live: set<Node>, layers: nat, k: nat, f: Node, c: Node, child: Node)
    requires Shape(s, layers) && TailClear(s, layers) && Separate(live, layers) && c.layer < k < layers
    requires Chosen(live, layers, k, f) && f.layer <= c.layer && c == Leftmost(f, c.layer)
    requires child == Node(c.layer + 1, 2 * c.idx) && InTree(child, layers) && Above(f, child)
    requires forall x :: InTree(x, layers) ==> (MarkAt(s, layers, x) <==> Descending(live, f, child, x))
    ensures Descent(s, live, layers, k, f, child)
  {
    hide MarkAt, Descending, Above, Chosen;
    LeftmostStep(f, c.layer);
  }

  lemma FirstChild(c: Node, layers: nat)
    requires InTree(c, layers) && c.layer + 1 < layers
    ensures InTree(Node(c.layer + 1, 2 * c.idx), layers) && Parent(Node(c.layer + 1, 2 * c.idx)) == c
  {
    assert Pow2(c.layer + 1) == 2 * Pow2(c.layer);
  }

  lemma DescentSeparate(s: seq<bv8>, live: set<Node>, layers: nat, k: nat, f: Node, c: Node)
    requires Descent(s, live, layers, k, f, c)
    ensures Shape(s, layers) && Separate(live, layers) && InTree(c, layers) && k < layers
  {
  }

  /** Marking the node the search stands at and moving to its first half goes on with the descent. */
  lemma SplitDescends(s: seq<bv8>, live: set<Node>, layers: nat, k: nat, f: Node, c: Node)
    requires Descent(s, live, layers, k, f, c) && c.layer < k
    ensures Shape(s, layers) && InTree(c, layers)
    ensures Descent(WithMark(s, layers, c, true), live, layers, k, f, Node(c.layer + 1, 2 * c.idx))
  {
    hide *;
    DescentSeparate(s, live, layers, k, f, c);
    InDescent(s, live, layers, k, f, c);
    var t, child := WithMark(s, layers, c, true), Node(c.layer + 1, 2 * c.idx);
    WithMarkRead(s, layers, c, true);
    FirstChild(c, layers);
    AboveSelfParent(child);
    AboveTrans(f, c, child);
    forall x | InTree(x, layers)
      ensures MarkAt(t, layers, x) <==> Descending(live, f, child, x)
    {
      DescentStep(live, f, c, child, x);
    }
    DescentMoved(t, live, layers, k, f, c, child);
  }

  lemma {:induction false} LeftmostStep(n: Node, k: nat)
    requires n.layer <= k
    ensures Leftmost(n, k + 1) == Node(k + 1, 2 * Leftmost(n, k).idx)
    decreases k - n.layer
  {
    if n.layer < k {
      LeftmostStep(Node(n.layer + 1, 2 * n.idx), k);
    } else {
      var c := Node(n.layer + 1, 2 * n.idx);
      assert Leftmost(n, k + 1) == Leftmost(c, k + 1) == c;
    }
  }

  lemma OffersMeaning(s: seq<bv8>, live: set<Node>, layers: nat, n: Node)
    requires Represents(s, live, layers) && Separate(live, layers) && InTree(n, layers)
    ensures Offers(s, layers, n, true) <==> MaximalFree(live, n)
  {
    hide MarkAt;
    if n.layer > 0 {
      BuddyFacts(n, layers);
      MaximalFreeByMarks(live, layers, n);
    } else if Covered(live, n) {
      var m :| m in live && Above(m, n);
      AboveLayer(m, n);
    }
  }

  /** A marked root without marked children is one live block that fills the arena. */
  lemma RootTaken(live: set<Node>, layers: nat, k: nat)
    requires Separate(live, layers) && k < layers
    requires Marked(live, Node(0, 0)) && !Marked(live, Node(1, 0)) && !Marked(live, Node(1, 1))
    ensures NoFreeBlock(live, layers, k)
  {
    MarkFromBuddy(live, Node(1, 0));
    forall n | InTree(n, layers)
      ensures !Free(live, n)
    {
      RootAbove(n, layers);
    }
  }

  lemma ClaimMarks(s: seq<bv8>, live: set<Node>, layers: nat, f: Node, r: Node)
    requires Shape(s, layers) && TailClear(s, layers)
    requires Separate(live, layers) && InTree(f, layers) && MaximalFree(live, f)
    requires InTree(r, layers) && Above(f, r)
    requires forall x :: InTree(x, layers) ==> (MarkAt(s, layers, x) <==> Descending(live, f, r, x))
    ensures Represents(WithMark(s, layers, r, true), live + {r}, layers)
  {
    hide MarkAt;
    hide WithMark;
    WithMarkRead(s, layers, r, true);
    forall x {
      DescentDone(live, layers, f, r, x);
    }
  }

  lemma MapBlock(g: Geometry, live: set<Node>, n: Node, before: seq<nat>, after: seq<nat>)
    requires InTree(n, g.layers) && Separate(live, g.layers) && Separate(live + {n}, g.layers) && n !in live
    requires Mapped(g, live, before) && BlockRemapped(g, n, before, after, true)
    ensures Mapped(g, live + {n}, after)
  {
    if g.minBlock % PAGE == 0 {
      forall m, p | m in live + {n} && 0 <= p < |after| && OwnsPage(g, m, p)
        ensures after[p] == MappedEntry(g, p)
      {
        if m == n {
          OwnPages(g, n, p);
        } else {
          PagesApart(g, m, n, p);
        }
      }
    }
  }

  lemma OwnPages(g: Geometry, n: Node, p: nat)
    requires n.layer < g.layers && g.minBlock % PAGE == 0
    ensures OwnsPage(g, n, p) <==> InPages(g.Offset(n), g.BlockSize(n.layer), p)
  {
    PageAligned(g, n);
  }

  lemma PagesApart(g: Geometry, a: Node, b: Node, p: nat)
    requires a.layer < g.layers && b.layer < g.layers && g.minBlock % PAGE == 0
    requires !Above(a, b) && !Above(b, a) && OwnsPage(g, a, p)
    ensures !InPages(g.Offset(b), g.BlockSize(b.layer), p)
  {
    OwnPages(g, b, p);
    if a.layer <= b.layer {
      DisjointSpans(a, b, g);
    } else {
      DisjointSpans(b, a, g);
    }
  }

  /** Page `p` holds a byte `address + i` with `i < size` a multiple of the page size. */
  predicate InPages(address: nat, size: nat, p: int) {
    address / PAGE <= p < address / PAGE + (size + PAGE - 1) / PAGE
  }

  lemma NextPage(address: nat, i: nat)
    requires i % PAGE == 0
    ensures (address + i) / PAGE == address / PAGE + i / PAGE
    ensures (i + PAGE - 1) / PAGE == i / PAGE && (i + PAGE + PAGE - 1) / PAGE == i / PAGE + 1
  {
  }

  lemma LastPage(address: nat, i: nat, size: nat)
    requires i % PAGE == 0 && size <= i && (i == 0 || i < size + PAGE)
    ensures (i + PAGE - 1) / PAGE == (size + PAGE - 1) / PAGE
    ensures forall p :: InPages(address, i, p) <==> InPages(address, size, p)
  {
  }

  lemma NoPages(address: nat)
    ensures forall p :: !InPages(address, 0, p)
  {
  }

  lemma OneMorePage(address: nat, i: nat)
    requires i % PAGE == 0
    ensures forall p :: InPages(address, i + PAGE, p) <==> InPages(address, i, p) || p == (address + i) / PAGE
    ensures (i + PAGE) % PAGE == 0
  {
    NextPage(address, i);
  }

  /** The slot of an address in the arena, and what its entry becomes. */
  lemma SlotOfPage(g: Geometry, a: nat)
    requires g.Valid() && a < g.maxBlock
    ensures PageSlot(a) == a / PAGE < PAGE_TABLE_ENTRIES
    ensures (a + g.start) / PAGE * PAGE + PAGE_FLAGS == MappedEntry(g, a / PAGE)
  {
    StartAligned(g);
    hide Geometry.Valid;
    var q, s := a / PAGE, g.start / PAGE;
    assert a + g.start == PAGE * (q + s) + a % PAGE;
  }

  lemma StartAligned(g: Geometry)
    requires g.Valid()
    ensures g.start == PAGE * (g.start / PAGE) && g.maxBlock <= PAGE * PAGE_TABLE_ENTRIES
  {
  }

  /** What the search tests at a node: it is unoccupied below an occupied parent, and on the way up its buddy is occupied. */
  ghost predicate Offers(s: seq<bv8>, layers: nat, n: Node, searchUp: bool)
    requires Shape(s, layers) && InTree(n, layers)
  {
    && !MarkAt(s, layers, n)
    && (n.layer > 0 ==>
      (BuddyFacts(n, layers); MarkAt(s, layers, Parent(n)) && (searchUp ==> MarkAt(s, layers, Buddy(n)))))
  }

  lemma ZeroBitmap(s: seq<bv8>, layers: nat)
    requires Shape(s, layers) && forall i :: 0 <= i < |s| ==> s[i] == 0
    ensures Represents(s, {}, layers)
  {
    forall i: nat | i < 8 * |s|
      ensures !GetBit(s, i)
    {
      ZeroByte(i % 8);
    }
    forall x | InTree(x, layers)
      ensures !MarkAt(s, layers, x)
    {
      BitIndexBound(x, layers);
    }
  }

  lemma ZeroByte(k: nat)
    requires k < 8
    ensures !ByteBit(0, k)
  {
    assert k == 0 || k == 1 || k == 2 || k == 3 || k == 4 || k == 5 || k == 6 || k == 7;
  }

  /** `idx & ~1` and its successor are the node and its buddy. */
  lemma PairLeft(c: Node)
    ensures var left := c.idx - c.idx % 2;
      || (c == Node(c.layer, left) && Buddy(c) == Node(c.layer, left + 1))
      || (Buddy(c) == Node(c.layer, left) && c == Node(c.layer, left + 1))
  {
  }

  /** The pair of a node, addressed by its first one. */
  lemma PairByLeft(s: seq<bv8>, layers: nat, c: Node)
    requires Shape(s, layers) && InTree(c, layers) && InTree(Buddy(c), layers)
    ensures var a, b := Node(c.layer, c.idx - c.idx % 2), Node(c.layer, c.idx - c.idx % 2 + 1);
      && InTree(a, layers) && InTree(b, layers)
      && (MarkAt(s, layers, a) || MarkAt(s, layers, b) <==> MarkAt(s, layers, c) || MarkAt(s, layers, Buddy(c)))
  {
    PairLeft(c);
    hide *;
  }
}
