/** `buddy_alloc` and `buddy_free`: the bitmap search, the split, the climb and the coalescing. */
module BuddyAllocation {
  import opened Bitmap
  import opened BuddyTree
  import opened BuddyGeometry
  import opened BuddyMarks
  import opened BuddySearch

  class BuddyAllocator {
    const geometry: Geometry
    const block: array<bv8>
    const pageTables: array<nat>
    ghost var live: set<Node>

    ghost predicate Shaped()
      reads this
    {
      && geometry.Valid()
      && block.Length == BUDDY_ARRAY_SIZE
      && pageTables.Length == PAGE_TABLE_ENTRIES
      && block as object != pageTables as object
      && Separate(live, geometry.layers)
    }

    ghost predicate Valid()
      reads this, block, pageTables
    {
      && Shaped()
      && Represents(block[..], live, geometry.layers)
      && Mapped(geometry, live, pageTables[..])
    }

    /** Nothing allocated: bitmap zeroed, as the program starts. */
    constructor (g: Geometry)
      requires g.Valid()
      ensures Valid() && geometry == g && live == {}
      ensures fresh(block) && fresh(pageTables)
    {
      geometry := g;
      block := new bv8[BUDDY_ARRAY_SIZE](_ => 0);
      pageTables := new nat[PAGE_TABLE_ENTRIES](_ => 0);
      live := {};
      new;
      ZeroBitmap(block[..], g.layers);
    }

    predicate BuddyBlock(layer: nat, idx: nat): (r: bool)
      requires InTree(Node(layer, idx), geometry.layers)
      requires Shape(block[..], geometry.layers)
      reads this, block
      ensures r <==> MarkAt(block[..], geometry.layers, Node(layer, idx))
    {
      TableIndex(Node(layer, idx), geometry.layers);
      var index := LAYER_BASE[layer] + idx;
      ByteBit(block[index / 8], index % 8)
    }

    method BuddyBlockSet(layer: nat, idx: nat, val: bool)
      requires InTree(Node(layer, idx), geometry.layers)
      requires Shape(block[..], geometry.layers)
      modifies block
      ensures block[..] == WithMark(old(block[..]), geometry.layers, Node(layer, idx), val)
    {
      TableIndex(Node(layer, idx), geometry.layers);
      var index := LAYER_BASE[layer] + idx;
      block[index / 8] := WithBit(block[index / 8], index % 8, val);
    }

    /** Maps the pages of a block that starts at `address`. */
    method MapPages(address: nat, size: nat)
      requires geometry.Valid() && pageTables.Length == PAGE_TABLE_ENTRIES
      requires address + size <= geometry.maxBlock
      modifies pageTables
      ensures forall p :: 0 <= p < PAGE_TABLE_ENTRIES ==>
        pageTables[p] == if InPages(address, size, p) then MappedEntry(geometry, p) else old(pageTables[p])
    {
      hide InPages, MappedEntry, Geometry.Valid, PageSlot;
      var i, a := 0, address;
      NoPages(address);
      while i < size
        invariant a == address + i && i % PAGE == 0 && (i == 0 || i < size + PAGE)
        invariant forall p :: 0 <= p < PAGE_TABLE_ENTRIES ==>
          pageTables[p] == if InPages(address, i, p) then MappedEntry(geometry, p) else old(pageTables[p])
      {
        SlotOfPage(geometry, a);
        OneMorePage(address, i);
        pageTables[PageSlot(a)] := (a + geometry.start) / PAGE * PAGE + PAGE_FLAGS;
        a, i := a + PAGE, i + PAGE;
      }
      LastPage(address, i, size);
    }

    /** Clears the entries of a block that starts at `address`; the flags of an entry stay set. */
    method UnmapPages(address: nat, size: nat)
      requires geometry.Valid() && pageTables.Length == PAGE_TABLE_ENTRIES
      requires address + size <= geometry.maxBlock
      modifies pageTables
      ensures forall p :: 0 <= p < PAGE_TABLE_ENTRIES ==>
        pageTables[p] == if InPages(address, size, p) then PAGE_FLAGS else old(pageTables[p])
    {
      hide InPages, MappedEntry;
      var i, a := 0, address;
      NoPages(address);
      while i < size
        invariant a == address + i && i % PAGE == 0 && (i == 0 || i < size + PAGE)
        invariant forall p :: 0 <= p < PAGE_TABLE_ENTRIES ==>
          pageTables[p] == if InPages(address, i, p) then PAGE_FLAGS else old(pageTables[p])
      {
        SlotOfPage(geometry, a);
        OneMorePage(address, i);
        pageTables[PageSlot(a)] := 0 / PAGE * PAGE + PAGE_FLAGS;
        a, i := a + PAGE, i + PAGE;
      }
      LastPage(address, i, size);
    }

    /** The body of the inner search loop: does the pair that starts at `idx` offer a block? */
    method TryPair(layer: nat, idx: nat, searchUp: bool) returns (found: bool, here: nat)
      requires geometry.Valid() && layer < geometry.layers && idx % 2 == 0 && idx < Pow2(layer)
      requires Shape(block[..], geometry.layers)
      ensures found ==> idx <= here <= idx + 1 && here < Pow2(layer) && Offers(block[..], geometry.layers, Node(layer, here), searchUp)
      ensures !found || here == idx + 1 ==> !Offers(block[..], geometry.layers, Node(layer, idx), searchUp)
      ensures !found && idx + 1 < Pow2(layer) ==> !Offers(block[..], geometry.layers, Node(layer, idx + 1), searchUp)
    {
      hide MarkAt;
      hide BuddyBlock;
      here := idx;
      if layer != 0 {
        assert Pow2(layer) == 2 * Pow2(layer - 1);
        assert (idx + 1) / 2 == idx / 2 && (idx + 1) % 2 == 1;
        if BuddyBlock(layer - 1, idx / 2) {
          if searchUp && !(BuddyBlock(layer, idx) || BuddyBlock(layer, idx + 1)) {
            return false, here; // only the parent block is allocated
          } else if !BuddyBlock(layer, idx) {
          } else if !BuddyBlock(layer, idx + 1) {
            here := idx + 1;
          } else {
            return false, here; // both buddies are occupied
          }
        } else {
          return false, here; // the parent is empty: try another pair
        }
      }
      found := !BuddyBlock(layer, here);
    }

    /** The inner search loop: the first node of a layer, from `start` on, that offers a block. */
    method ScanLayer(layer: nat, start: nat, searchUp: bool) returns (found: bool, idx: nat)
      requires geometry.Valid() && layer < geometry.layers && start % 2 == 0
      requires Shape(block[..], geometry.layers)
      ensures found ==> start <= idx < Pow2(layer) && Offers(block[..], geometry.layers, Node(layer, idx), searchUp)
      ensures forall j: nat :: start <= j < Pow2(layer) && (found ==> j < idx) ==>
        !Offers(block[..], geometry.layers, Node(layer, j), searchUp)
    {
      hide MarkAt, Offers, Pow2, Shape, Geometry.Valid, BuddyBlock;
      idx := start;
      while idx < Pow2(layer)
        invariant start <= idx && idx % 2 == 0
        invariant forall j: nat :: start <= j < idx && j < Pow2(layer) ==>
          !Offers(block[..], geometry.layers, Node(layer, j), searchUp)
      {
        var here;
        found, here := TryPair(layer, idx, searchUp);
        if found {
          idx := here;
          return;
        }
        idx := idx + 2;
      }
      found := false;
    }

    /** Takes the unoccupied node `r` the search ended in. */
    method Claim(r: Node, ghost f: Node)
      requires Shaped() && Shape(block[..], geometry.layers) && TailClear(block[..], geometry.layers)
      requires Mapped(geometry, live, pageTables[..])
      requires InTree(f, geometry.layers) && MaximalFree(live, f)
      requires InTree(r, geometry.layers) && Above(f, r)
      requires forall x :: InTree(x, geometry.layers) ==>
        (MarkAt(block[..], geometry.layers, x) <==> Descending(live, f, r, x))
      modifies block, pageTables, this`live
      ensures Valid() && live == old(live) + {r} && r !in old(live)
      ensures BlockRemapped(geometry, r, old(pageTables[..]), pageTables[..], true)
    {
      hide MarkAt, WithMark, Descending, Represents, Mapped, Above;
      FreeDown(live, f, r);
      AddSeparate(live, geometry.layers, r);
      SpanInArena(r, geometry);
      ClaimMarks(block[..], live, geometry.layers, f, r);
      BuddyBlockSet(r.layer, r.idx, true);
      MapPages(geometry.Offset(r), geometry.BlockSize(r.layer));
      MapBlock(geometry, live, r, old(pageTables[..]), pageTables[..]);
      live := live + {r};
    }

    /** Doubles the smallest block until it holds `size` bytes. */
    method FindLayer(size: nat) returns (k: nat, minBlockSize: nat)
      requires geometry.Valid() && size <= geometry.maxBlock
      ensures k == FitLayer(geometry, size) && minBlockSize == geometry.BlockSize(k)
    {
      k, minBlockSize := geometry.layers - 1, geometry.minBlock;
      while minBlockSize < size
        invariant k < geometry.layers && minBlockSize == geometry.BlockSize(k)
        invariant forall j :: k < j < geometry.layers ==> geometry.BlockSize(j) < size
        invariant FitFrom(geometry, size, k) == FitLayer(geometry, size)
        decreases k
      {
        minBlockSize := 2 * minBlockSize;
        k := k - 1;
      }
    }

    /** Splits the node `c` on the way down and moves to its first half. */
    method Split(c: Node, ghost k: nat, ghost f: Node) returns (child: Node)
      requires Shaped() && c.layer < k && Descent(block[..], live, geometry.layers, k, f, c)
      modifies block
      ensures child == Node(c.layer + 1, 2 * c.idx) && Descent(block[..], live, geometry.layers, k, f, child)
    {
      hide MarkAt, WithMark, Descent, Separate, Shape;
      SplitDescends(block[..], live, geometry.layers, k, f, c);
      BuddyBlockSet(c.layer, c.idx, true);
      child := Node(c.layer + 1, 2 * c.idx);
    }

    predicate BothHalves(): (r: bool)
      requires geometry.layers >= 2 && Shape(block[..], geometry.layers)
      reads this, block
      ensures r <==> HalvesMarked(block[..], geometry.layers)
    {
      hide MarkAt;
      RootChildren(geometry.layers);
      BuddyBlock(1, 0) && BuddyBlock(1, 1)
    }

    /**
      The search: climbs from the requested layer to the first layer that offers a block,
      then descends to the requested layer by splitting. `f` is the maximal free block it settles on.
      `exhausted` tells that all layers were searched, up to the root; else a failing search stops as soon as it sees
      that both halves of the arena are occupied.
     */
    method Search(minLayer: nat) returns (found: bool, exhausted: bool, c: Node, ghost f: Node)
      requires Valid() && minLayer < geometry.layers
      modifies block
      ensures found <==> !NoFreeBlock(live, geometry.layers, minLayer)
      ensures found ==> c.layer == minLayer && Descent(block[..], live, geometry.layers, minLayer, f, c)
      ensures !found ==> block[..] == old(block[..])
      ensures exhausted <==> !found && !HalvesMarked(old(block[..]), geometry.layers)
    {
      hide MarkAt, Offers, Descending, Chosen, NoFreeBlock, Represents, Mapped, Above, MaximalFree, NoneBelow, Descent,
        HalvesMarked, BothHalves;
      f := Node(0, 0);
      var layer: int, idx, searchUp := minLayer, 0, true;
      NoneBelowLast(live, geometry.layers, minLayer);
      while layer >= 0
        invariant -1 <= layer <= minLayer && idx % 2 == 0
        invariant Shape(block[..], geometry.layers)
        invariant searchUp ==> idx == 0 && block[..] == old(block[..]) && NoneBelow(live, geometry.layers, layer, minLayer)
        invariant !searchUp ==>
          layer > f.layer && Descent(block[..], live, geometry.layers, minLayer, f, Node(layer, idx))
        invariant layer < 0 ==> !HalvesMarked(block[..], geometry.layers)
        decreases searchUp, if searchUp then layer else minLayer - layer
      {
        if layer <= 1 && BothHalves() {
          HalvesTaken(block[..], live, geometry.layers, minLayer, layer, searchUp, f, idx);
          return false, false, Node(0, 0), f;
        }
        var offered, here := ScanLayer(layer, idx, searchUp);
        if !offered {
          ScanFailed(block[..], live, geometry.layers, minLayer, layer, searchUp, f, idx);
          idx, layer := 0, layer - 1;
        } else {
          f := ScanFound(block[..], live, geometry.layers, minLayer, layer, searchUp, f, idx, here);
          c := Node(layer, here);
          DescentFits(block[..], live, geometry.layers, minLayer, f, c);
          if layer == minLayer {
            return true, false, c, f;
          }
          var child := Split(c, minLayer, f);
          DescentFits(block[..], live, geometry.layers, minLayer, f, child);
          layer, idx, searchUp := child.layer, child.idx, false;
        }
      }
      NothingFree(live, geometry.layers, minLayer);
      return false, true, Node(0, 0), f;
    }

    /** Carves a block for `size` bytes; `f` is the maximal free block it comes from. */
    method Alloc(size: nat) returns (ptr: nat, blockSize: nat, ghost f: Node)
      requires Valid()
      modifies block, pageTables, this`live
      ensures Valid()
      ensures ptr == 0 <==>
        size > geometry.maxBlock || NoFreeBlock(old(live), geometry.layers, FitLayer(geometry, size))
      ensures ptr == 0 ==> blockSize == 0 && live == old(live)
      ensures ptr == 0 ==> block[..] == old(block[..]) && pageTables[..] == old(pageTables[..])
      ensures ptr != 0 ==>
        var k := FitLayer(geometry, size);
        Chosen(old(live), geometry.layers, k, f) &&
        var r := Leftmost(f, k);
        && blockSize == geometry.BlockSize(k)
        && ptr == BUDDY_ALLOC_VIRADR + geometry.Offset(r)
        && r !in old(live) && live == old(live) + {r}
        && BlockRemapped(geometry, r, old(pageTables[..]), pageTables[..], true)
    {
      hide MarkAt, InTree, Separate, Leftmost, Descending, Chosen, NoFreeBlock, Represents, Mapped, Above, MaximalFree,
        BlockRemapped, Descent, FitLayer, Shl;
      f := Node(0, 0);
      if size > geometry.maxBlock {
        return 0, 0, f;
      }
      RootChildren(geometry.layers);
      if BuddyBlock(0, 0) && !(BuddyBlock(1, 0) || BuddyBlock(1, 1)) {
        ArenaTaken(block[..], live, geometry.layers, FitLayer(geometry, size));
        return 0, 0, f;
      }
      var minLayer, minBlockSize := FindLayer(size);
      var found, c;
      var exhausted;
      found, exhausted, c, f := Search(minLayer);
      if !found {
        if exhausted && minLayer <= 0 {
          RootMarked(block[..], live, geometry.layers);
          if !BuddyBlock(0, 0) {
            assert false; // the largest block would be free
          }
        }
        return 0, 0, f;
      }
      InDescent(block[..], live, geometry.layers, minLayer, f, c);
      Claim(c, f);
      ptr, blockSize := minBlockSize * c.idx + BUDDY_ALLOC_VIRADR, geometry.BlockSize(c.layer);
    }

    /** The upward walk of `buddy_free`: from the smallest block at the address to the live block that owns it. */
    method ClimbToOwner(minBlockIdx: nat, ghost n: Node) returns (c: Node)
      requires Valid() && n in live
      requires minBlockIdx == Leftmost(n, geometry.layers - 1).idx
      ensures c == n
    {
      hide MarkAt;
      c := Node(geometry.layers - 1, minBlockIdx);
      LeftmostBelow(n, geometry.layers - 1, geometry.layers);
      OwnerMark(block[..], live, geometry.layers, n, c);
      while !BuddyBlock(c.layer, c.idx)
        invariant n.layer <= c.layer < geometry.layers && c == Leftmost(n, c.layer) && InTree(c, geometry.layers)
        invariant MarkAt(block[..], geometry.layers, c) <==> c == n
        decreases c.layer
      {
        LeftmostParent(n, c.layer);
        BuddyFacts(c, geometry.layers);
        c := Parent(c);
        LeftmostBelow(n, c.layer, geometry.layers);
        OwnerMark(block[..], live, geometry.layers, n, c);
      }
    }

    predicate EitherMarked(a: Node, b: Node): (r: bool)
      requires InTree(a, geometry.layers) && InTree(b, geometry.layers)
      requires Shape(block[..], geometry.layers)
      reads this, block
      ensures r <==> MarkAt(block[..], geometry.layers, a) || MarkAt(block[..], geometry.layers, b)
    {
      hide *;
      BuddyBlock(a.layer, a.idx) || BuddyBlock(b.layer, b.idx)
    }

    predicate LowerPairOccupied(c: Node): (r: bool)
      requires InTree(c, geometry.layers) && InTree(Buddy(c), geometry.layers)
      requires Shape(block[..], geometry.layers)
      reads this, block
      ensures r <==> MarkAt(block[..], geometry.layers, c) || MarkAt(block[..], geometry.layers, Buddy(c))
    {
      hide *;
      PairByLeft(block[..], geometry.layers, c);
      EitherMarked(Node(c.layer, c.idx - c.idx % 2), Node(c.layer, c.idx - c.idx % 2 + 1))
    }

    /**
      One of the two buddies at `c` is occupied: the guard of the coalescing loop. At the root, bits 0 and 1 are
      tested; the second is that of the first half.
     */
    predicate PairOccupied(c: Node): (r: bool)
      requires geometry.layers >= 2 && InTree(c, geometry.layers)
      requires Shape(block[..], geometry.layers)
      reads this, block
      ensures r <==> PairMarked(block[..], geometry.layers, c)
    {
      hide *;
      if c.layer == 0 then
        PairAtRoot(block[..], geometry.layers, c);
        BuddyBlock(0, 0) || BuddyBlock(1, 0)
      else
        PairAt(block[..], geometry.layers, c);
        LowerPairOccupied(c)
    }

    /**
      Clears the bit of the freed block and of every parent both of whose halves are now unoccupied.
      The loop leaves the tree, for layer -1, exactly if no other block is live.
     */
    method Coalesce(n: Node) returns (c: Node, left: bool)
      requires Valid() && n in live
      modifies block
      ensures left <==> !OtherLive(live, n)
      ensures Represents(block[..], live - {n}, geometry.layers)
      ensures !left ==> MaximalFree(live - {n}, c) && Above(c, n) && InTree(c, geometry.layers) && c.layer > 0
    {
      hide MarkAt, WithMark, Above, Climbing, Represents, PairOccupied, MaximalFree, OtherLive, PairMarked;
      ghost var s0 := block[..];
      InRepresents(s0, live, geometry.layers);
      c, left := n, false;
      BuddyBlockSet(n.layer, n.idx, false);
      CoalesceStarts(s0, live, geometry.layers, n);
      while !PairOccupied(c)
        invariant Shape(block[..], geometry.layers) && InTree(c, geometry.layers)
        invariant Climbing(block[..], live, geometry.layers, n, c)
        decreases c.layer
      {
        if c.layer == 0 {
          CoalesceAtRoot(block[..], live, geometry.layers, n, c);
          left := true; // steps to layer -1
          return;
        }
        ghost var s := block[..];
        PairAt(s, geometry.layers, c);
        BuddyFacts(c, geometry.layers);
        ghost var prev := c;
        c := Parent(c);
        BuddyBlockSet(c.layer, c.idx, false);
        CoalesceStep(s, live, geometry.layers, n, prev);
      }
      if c.layer == 0 {
        CoalesceAtRoot(block[..], live, geometry.layers, n, c);
        assert false;
      }
      PairAt(block[..], geometry.layers, c);
      CoalesceEnds(block[..], live, geometry.layers, n, c);
    }

    /**
      Releases the live block `n` that starts at `ptr`; `f` is the maximal free block it ends up in.
      `left` tells that the coalescing left the tree; what the program does from there on is not modelled.
     */
    method Free(ptr: nat, ghost n: Node) returns (left: bool, ghost f: Node)
      requires Valid()
      requires ptr != 0 ==> n in live && ptr == BUDDY_ALLOC_VIRADR + geometry.Offset(n)
      modifies block, pageTables, this`live
      ensures Valid()
      ensures left <==> ptr != 0 && !OtherLive(old(live), n)
      ensures ptr == 0 ==> live == old(live) && block[..] == old(block[..])
      ensures ptr == 0 || left ==> pageTables[..] == old(pageTables[..])
      ensures ptr != 0 ==> live == old(live) - {n}
      ensures ptr != 0 && !left ==> InTree(f, geometry.layers) && MaximalFree(live, f) && Above(f, n)
      ensures ptr != 0 && !left ==> BlockRemapped(geometry, f, old(pageTables[..]), pageTables[..], false)
    {
      hide MarkAt, Represents, Mapped, Above, MaximalFree, Leftmost, Shl, OtherLive;
      left, f := false, n;
      if ptr == 0 {
        return;
      }
      var minBlockIdx := (ptr - BUDDY_ALLOC_VIRADR) / geometry.minBlock;
      SmallestBlockIndex(geometry, n);
      var c := ClimbToOwner(minBlockIdx, n);
      RemoveSeparate(live, geometry.layers, n);
      c, left := Coalesce(c);
      f := c;
      if left {
        LastReleased(geometry, live, n, pageTables[..]);
        live := live - {n};
        return;
      }
      SpanInArena(c, geometry);
      UnmapPages(geometry.Offset(c), geometry.BlockSize(c.layer));
      UnmapBlock(geometry, live, n, c, old(pageTables[..]), pageTables[..]);
      live := live - {n};
    }
  }

  /** With no block left there is nothing that has to be mapped. */
  lemma LastReleased(g: Geometry, live: set<Node>, n: Node, entries: seq<nat>)
    requires n in live && !OtherLive(live, n) && Separate(live - {n}, g.layers)
    ensures Mapped(g, live - {n}, entries)
  {
    assert live - {n} == {};
  }

  /** An allocation followed by the release of its result restores the bitmap bit for bit. */
  method AllocThenFree(b: BuddyAllocator, size: nat) returns (ptr: nat, ghost f: Node)
    requires b.Valid() && b.live != {}
    modifies b.block, b.pageTables, b`live
    ensures b.Valid() && b.live == old(b.live)
    ensures b.block[..] == old(b.block[..])
    ensures ptr == 0 <==>
      (size > b.geometry.maxBlock || NoFreeBlock(old(b.live), b.geometry.layers, FitLayer(b.geometry, size)))
    ensures ptr != 0 ==>
      && Chosen(old(b.live), b.geometry.layers, FitLayer(b.geometry, size), f)
      && ptr == BUDDY_ALLOC_VIRADR + b.geometry.Offset(Leftmost(f, FitLayer(b.geometry, size)))
  {
    hide MarkAt, Mapped, Above, Represents, BlockRemapped, NoFreeBlock, MaximalFree, Shl;
    ghost var other :| other in b.live;
    ghost var before, layers := b.live, b.geometry.layers;
    ghost var s := b.block[..];
    var blockSize;
    ptr, blockSize, f := b.Alloc(size);
    if ptr != 0 {
      ghost var r := Leftmost(f, FitLayer(b.geometry, size));
      assert other in b.live && other != r;
      var left;
      ghost var freed;
      left, freed := b.Free(ptr, r);
      assert b.live == before;
      BitmapDeterminedByLive(s, b.block[..], before, layers);
    }
  }
}
