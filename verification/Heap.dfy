/** `malloc` and `free` while the heap occupies at most one buddy block. */
module Heap {
  import opened Basics
  import opened HeapLayout
  import opened Sequences
  import opened RawMemory
  import opened HeapMemory
  import opened HeapPayload
  import BT = BuddyTree
  import BG = BuddyGeometry
  import BS = BuddySearch
  import BM = BuddyMarks
  import BA = BuddyAllocation

  const HEAP_FIRST_FIT_MAX_SIZE: nat := 8192
  const HEAP_METADATA_SIZE: nat := 16384
  const NO_FIT_YET: nat := 2_000_000_000

  /** `NeedsBlock`: no gap fits, a further buddy block would be requested; not part of this model. */
  datatype MallocResult = Null | Placed(ptr: nat) | NeedsBlock

  class Heap {
    const buddy: BA.BuddyAllocator
    const mem: array<byte>
    /** Address of the metadata; its first two words are the roots of the lists. */
    const heapc: nat
    /** The first slot of the table of heap blocks: address and size, or zeros. */
    var blockAt: nat
    var blockSize: nat

    ghost var layout: Layout
    /** Live objects: header address to bytes requested, header included. */
    ghost var sizes: map<nat, nat>
    /** Node of the metadata block, node of the heap block, and the buddy blocks that are not the heap's. */
    ghost const meta: BT.Node
    ghost var node: BT.Node
    ghost const home: set<BT.Node>

    ghost predicate Empty()
      reads this
    {
      layout.A == []
    }

    ghost predicate Shaped()
      reads this, buddy
    {
      && buddy.Shaped()
      && mem.Length == buddy.geometry.maxBlock
      && mem as object != buddy.block as object && mem as object != buddy.pageTables as object
      && meta in home && meta.layer < buddy.geometry.layers
      && heapc == MEMORY_BASE + buddy.geometry.Offset(meta) && buddy.geometry.BlockSize(meta.layer) >= 8
      && BT.Separate(home, buddy.geometry.layers)
    }

    /** The heap has no block: roots and slot are zero. */
    ghost predicate Vacant()
      requires Shaped()
      reads this, buddy, mem
    {
      && blockAt == 0 && blockSize == 0 && layout.A == [] && layout.F == [] && layout.S == []
      && sizes == map[] && buddy.live == home
      && Addressable(mem[..], heapc) && Addressable(mem[..], heapc + 4)
      && Load(mem[..], heapc) == 0 && Load(mem[..], heapc + 4) == 0
    }

    /** The heap has one block. */
    ghost predicate Occupied()
      requires Shaped()
      reads this, buddy, mem
    {
      && node !in home && buddy.live == home + {node}
      && node.layer < buddy.geometry.layers
      && blockAt == MEMORY_BASE + buddy.geometry.Offset(node) && blockSize == buddy.geometry.BlockSize(node.layer)
      && layout.base == blockAt && layout.limit == blockAt + blockSize
      && Holds(mem[..], heapc, layout) && OwnAll(layout, sizes)
    }

    ghost predicate Valid()
      reads this, mem, buddy, buddy.block, buddy.pageTables
    {
      && Shaped() && buddy.Valid()
      && if Empty() then Vacant() else Occupied()
    }

    /** After `heap_init`: the metadata block is live and its words are zero. */
    constructor (buddy: BA.BuddyAllocator, heapc: nat, ghost meta: BT.Node)
      requires buddy.Valid() && meta in buddy.live && buddy.geometry.BlockSize(meta.layer) >= HEAP_METADATA_SIZE
      requires heapc == MEMORY_BASE + buddy.geometry.Offset(meta)
      ensures Valid() && Empty() && this.buddy == buddy && this.meta == meta && home == buddy.live
      ensures fresh(mem)
    {
      this.buddy, this.meta, this.home, this.node := buddy, meta, buddy.live, meta;
      mem := new byte[buddy.geometry.maxBlock](_ => 0);
      this.heapc := heapc;
      blockAt, blockSize, layout, sizes := 0, 0, Layout(0, 0, [], [], []), map[];
      new;
      BG.SpanInArena(meta, buddy.geometry);
    }

    function Word(a: nat): nat
      requires Addressable(mem[..], a)
      reads mem
    {
      Load(mem[..], a)
    }

    method Put(a: nat, v: nat)
      requires Addressable(mem[..], a) && v < WORD_LIMIT
      modifies mem
      ensures mem[..] == Store(old(mem[..]), a, v)
    {
      var i := a - MEMORY_BASE;
      mem[i], mem[i + 1] := v % 0x100, v / 0x100 % 0x100;
      mem[i + 2], mem[i + 3] := v / 0x1_0000 % 0x100, v / 0x100_0000;
    }

    /** `heap_in_mem_block` for the one block. */
    predicate InBlock(p: nat)
      reads this
    {
      blockAt <= p < blockAt + blockSize
    }

    /** `heap_mem_block` finds a block around `p`. */
    predicate HasBlock(p: nat)
      reads this
    {
      blockAt != 0 && InBlock(p)
    }

    /** What the walks over the lists need to know. */
    ghost predicate Walkable()
      reads this, mem
    {
      && Holds(mem[..], heapc, layout)
      && layout.base == blockAt && layout.limit == blockAt + blockSize
      && 0 < blockAt && blockSize < NO_FIT_YET
    }

    lemma InOneBlock()
      requires Valid() && !Empty()
      ensures Walkable()
    {
    }

    lemma WalkFacts()
      requires Walkable()
      ensures Holds(mem[..], heapc, layout) && |layout.S| == |layout.F| && |layout.A| > 0
      ensures layout.base == blockAt && layout.limit == blockAt + blockSize < layout.base + NO_FIT_YET && blockAt > 0
      ensures Addressable(mem[..], heapc) && Addressable(mem[..], heapc + 4)
    {
    }

    /**
      Walks both lists to find the gap for `need` bytes. The results are the links at which
      the new object and the shortened gap have to be entered.
     */
    method SearchGap(need: nat, firstFit: bool)
      returns (found: bool, bestAlloc: nat, bestPrev: nat, bestFree: nat, bestAvail: nat, ghost j: nat)
      requires Walkable()
      ensures |layout.S| == |layout.F|
      ensures found <==> !NoneFits(layout, need)
      ensures found ==> Picked(layout, need, firstFit, j) && bestAvail == layout.Gap(j)
      ensures found ==> EntersAt(heapc, layout, j, bestAlloc, bestPrev, bestFree)
    {
      hide *;
      found, bestAlloc, bestPrev, bestFree, bestAvail, j := false, 0, 0, 0, NO_FIT_YET, 0;
      var allocPtr, prevFree := heapc, heapc + 4;
      ghost var k: nat, q: nat := 0, 0;
      var freePtr := FirstFree();
      BestStarts(layout, need);
      while freePtr != 0
        invariant q <= |layout.F| && k <= |layout.A| && (q < |layout.F| ==> k <= layout.S[q])
        invariant prevFree == Link(heapc + 4, layout.F, q) && freePtr == Target(layout.F, q)
        invariant allocPtr == Link(heapc, layout.A, k)
        invariant BestSoFar(layout, need, found, j, q, bestAvail) && (found ==> !firstFit)
        invariant found ==> EntersAt(heapc, layout, j, bestAlloc, bestPrev, bestFree)
        decreases |layout.F| - q
      {
        var avail;
        allocPtr, avail, k := MeasureGap(need, allocPtr, freePtr, k, q);
        BestStep(layout, need, found, j, q, bestAvail);
        if need <= avail && avail < bestAvail {
          EntersHere(heapc, layout, q);
          found, j := true, q;
          bestAvail, bestAlloc, bestFree, bestPrev := avail, allocPtr, freePtr, prevFree;
          if firstFit {
            return;
          }
        }
        prevFree, freePtr := NextFree(prevFree, q);
        q := q + 1;
      }
      AllSeen(q);
      BestOfAll(layout, need, found, j, bestAvail);
    }

    method FirstFree() returns (freePtr: nat)
      requires Walkable()
      ensures freePtr == Target(layout.F, 0) && |layout.S| == |layout.F|
      ensures heapc == Link(heapc, layout.A, 0) && heapc + 4 == Link(heapc + 4, layout.F, 0)
    {
      hide Load, Walkable, Holds, Linked;
      WalkFacts();
      FirstLinks(heapc, layout);
      ReadLinks(mem[..], heapc, layout, 0, 0);
      freePtr := Word(heapc + 4);
    }

    lemma AllSeen(q: nat)
      requires Walkable() && q <= |layout.F| && Target(layout.F, q) == 0
      ensures q == |layout.F| == |layout.S|
    {
      hide Load, Walkable, Holds, Linked;
      WalkFacts();
      NoGapLeft(mem[..], heapc, layout, q);
    }

    method NextFree(link: nat, ghost q: nat) returns (prevFree: nat, freePtr: nat)
      requires Walkable() && q < |layout.F| && link == Link(heapc + 4, layout.F, q)
      ensures prevFree == Link(heapc + 4, layout.F, q + 1) && freePtr == Target(layout.F, q + 1)
    {
      hide Load, Walkable, Holds, Linked;
      WalkFacts();
      ReadLinks(mem[..], heapc, layout, 0, q);
      ReadLinks(mem[..], heapc, layout, 0, q + 1);
      prevFree := Word(link);
      freePtr := Word(prevFree);
    }

    /** The space from a free header to the next allocated one, or to the end of the block. */
    method MeasureGap(need: nat, start: nat, freePtr: nat, ghost k0: nat, ghost q: nat) returns (allocPtr: nat, avail: int, ghost k: nat)
      requires Walkable() && q <= |layout.F| && k0 <= |layout.A|
      requires freePtr != 0 && freePtr == Target(layout.F, q) && (q < |layout.F| == |layout.S| ==> k0 <= layout.S[q])
      requires start == Link(heapc, layout.A, k0)
      ensures q < |layout.F| == |layout.S| && k == layout.S[q] <= |layout.A| && allocPtr == Link(heapc, layout.A, k)
      ensures q + 1 < |layout.F| ==> k <= layout.S[q + 1]
      ensures avail == layout.Gap(q) < NO_FIT_YET
    {
      hide Load, Walkable, Holds, Linked;
      WalkFacts();
      GapAt(mem[..], heapc, layout, q);
      allocPtr, k := AdvanceAlloc(start, freePtr, k0, q);
      ReadLinks(mem[..], heapc, layout, k, q);
      if InBlock(Word(allocPtr)) {
        avail := Word(allocPtr) - freePtr;
      } else {
        avail := blockAt + blockSize - freePtr;
        if need <= avail {
          LinkPositive(k);
          allocPtr := SkipOtherBlocks(allocPtr, freePtr);
        }
      }
    }

    lemma LinkPositive(k: nat)
      requires Walkable() && k <= |layout.A|
      ensures 0 < Link(heapc, layout.A, k)
    {
    }

    /** The walk of `malloc` through the objects of further blocks: with one block its first turn is its last. */
    method SkipOtherBlocks(start: nat, freePtr: nat) returns (allocPtr: nat)
      requires 0 < start && Addressable(mem[..], start) && Word(start) == 0
      ensures allocPtr == start
    {
      allocPtr := start;
      var outside := !InBlock(allocPtr) && !InBlock(Word(allocPtr));
      if outside || Word(allocPtr) < freePtr {
        if Word(allocPtr) != 0 {
          assert false; // the list has ended
        }
      }
    }

    /** The inner walk: from one allocated link to the last one below the free header. */
    method AdvanceAlloc(start: nat, freePtr: nat, ghost k0: nat, ghost q: nat) returns (allocPtr: nat, ghost k: nat)
      requires Walkable() && q < |layout.F| == |layout.S| && freePtr == layout.F[q]
      requires k0 <= layout.S[q] <= |layout.A| && start == Link(heapc, layout.A, k0)
      ensures k == layout.S[q] && allocPtr == Link(heapc, layout.A, k)
    {
      hide Load;
      allocPtr, k := start, k0;
      GapNeighbours(layout, q);
      ReadLinks(mem[..], heapc, layout, k, q);
      while InBlock(Word(allocPtr)) && Word(allocPtr) < freePtr
        invariant k <= layout.S[q] && allocPtr == Link(heapc, layout.A, k)
        invariant Addressable(mem[..], allocPtr) && Word(allocPtr) == Target(layout.A, k)
        decreases layout.S[q] - k
      {
        allocPtr, k := Word(allocPtr), k + 1;
        ReadLinks(mem[..], heapc, layout, k, q);
      }
    }

    /** `malloc_allocate_in_between`: links the object in at the chosen gap and shortens or drops the gap. */
    method AllocateInBetween(need: nat, bestAlloc: nat, bestPrev: nat, bestFree: nat, bestAvail: nat, ghost j: nat)
      returns (ptr: nat)
      requires Walkable() && j < |layout.F| == |layout.S| && layout.S[j] <= |layout.A|
      requires need > HEADER && Fits(layout, need, j)
      requires bestFree == layout.F[j] && bestAvail == layout.Gap(j)
      requires bestAlloc == Link(heapc, layout.A, layout.S[j]) && bestPrev == Link(heapc + 4, layout.F, j)
      modifies mem
      ensures mem[..] == PlaceStores(old(mem[..]), heapc, layout, j, need)
      ensures ptr == layout.F[j] + HEADER
    {
      hide Load, Store, Holds, Linked, Link, Target, Fits, Place;
      ghost var m := mem[..];
      ghost var oldNext, oldTarget := Target(layout.F, j + 1), Target(layout.A, layout.S[j]);
      PlaceAddresses(m, heapc, layout, j, need);
      var temp := Word(bestFree);
      LinkInBetween(bestAlloc, bestFree, oldTarget);
      if bestAvail - need > HEADER {
        if bestFree + need + HEADER == Word(bestFree) {
          assert false; // the gap would be the object and one header long
        }
        LoadOther(mem[..], bestFree + need, temp, bestAlloc);
        Put(Word(bestAlloc) + need, temp);
        LoadOther(mem[..], bestPrev, bestFree + need, bestAlloc);
        Put(bestPrev, Word(bestAlloc) + need);
      } else if bestPrev != 0 {
        LoadOther(mem[..], bestPrev, temp, bestAlloc);
        Put(bestPrev, temp);
      }
      ptr := Word(bestAlloc) + HEADER;
    }

    method LinkInBetween(bestAlloc: nat, bestFree: nat, ghost target: nat)
      requires Addressable(mem[..], bestAlloc) && Addressable(mem[..], bestFree) && Apart(bestFree, bestAlloc)
      requires bestFree < WORD_LIMIT && Word(bestAlloc) == target < WORD_LIMIT
      modifies mem
      ensures mem[..] == Store(Store(old(mem[..]), bestFree, target), bestAlloc, bestFree)
      ensures Word(bestFree) == target && Word(bestAlloc) == bestFree
    {
      hide Load, Store;
      LoadStored(mem[..], bestFree, target);
      Put(bestFree, Word(bestAlloc));
      LoadStored(mem[..], bestAlloc, bestFree);
      LoadOther(mem[..], bestAlloc, bestFree, bestFree);
      Put(bestAlloc, bestFree);
    }

    /** The first request of an empty heap: the object starts a new buddy block. */
    method MallocFirst(need: nat) returns (r: MallocResult)
      requires Valid() && Empty() && need > HEADER
      modifies this, mem, buddy.block, buddy.pageTables, buddy`live
      ensures Valid()
      ensures r.Null? <==>
        (need > buddy.geometry.maxBlock || BS.NoFreeBlock(home, buddy.geometry.layers, BS.FitLayer(buddy.geometry, need)))
      ensures r.Null? ==> layout == old(layout) && sizes == old(sizes) && mem[..] == old(mem[..])
      ensures !r.Null? ==> r == Placed(blockAt + HEADER) && need <= blockSize && node !in home
      ensures !r.Null? ==> layout == FirstLayout(blockAt, blockAt + blockSize, need) && sizes == map[blockAt := need]
      ensures !r.Null? ==> RestFree(layout, blockAt, blockAt + blockSize, need)
    {
      hide Load, Store, Holds, OwnAll, BS.NoFreeBlock, FirstStores, BT.Separate, BA.BuddyAllocator.Valid, BS.FitLayer, BG.Shl;
      var ptr, size := NewBlock(need);
      if ptr == 0 {
        return Null;
      }
      BlockApart();
      blockAt, blockSize := ptr, size;
      FirstHolds(mem[..], heapc, ptr, ptr + size, need);
      FirstFrees(ptr, ptr + size, need);
      FirstOwns(ptr, ptr + size, need);
      StoreFirst(ptr, size, need);
      layout, sizes := FirstLayout(ptr, ptr + size, need), map[ptr := need];
      r := Placed(ptr + HEADER);
      assert Occupied();
    }

    /** Requests a buddy block for the heap. */
    method NewBlock(need: nat) returns (ptr: nat, size: nat)
      requires Shaped() && buddy.Valid() && buddy.live == home
      modifies this`node, buddy.block, buddy.pageTables, buddy`live
      ensures Shaped() && buddy.Valid()
      ensures ptr == 0 <==>
        (need > buddy.geometry.maxBlock || BS.NoFreeBlock(home, buddy.geometry.layers, BS.FitLayer(buddy.geometry, need)))
      ensures ptr == 0 ==> buddy.live == home
      ensures ptr != 0 ==>
        && buddy.live == home + {node} && node !in home && node.layer < buddy.geometry.layers
        && ptr == MEMORY_BASE + buddy.geometry.Offset(node) && size == buddy.geometry.BlockSize(node.layer) >= need
    {
      hide BS.NoFreeBlock, BS.Mapped, BS.BlockRemapped, BT.Above, BG.Shl, BT.MaximalFree;
      ghost var f;
      ptr, size, f := buddy.Alloc(need);
      if ptr != 0 {
        node := BT.Leftmost(f, BS.FitLayer(buddy.geometry, need));
      }
    }

    method StoreFirst(ptr: nat, size: nat, need: nat)
      requires Addressable(mem[..], heapc) && Addressable(mem[..], heapc + 4) && MEMORY_BASE + mem.Length <= WORD_LIMIT
      requires MEMORY_BASE <= ptr && ptr + need <= ptr + size <= MEMORY_BASE + mem.Length && need > HEADER
      modifies mem
      ensures mem[..] == FirstStores(old(mem[..]), heapc, ptr, ptr + size, need)
    {
      hide Load, Store;
      Put(heapc, ptr);
      Put(ptr, 0);
      if size - need > HEADER {
        LoadStored(mem[..], heapc + 4, ptr + need);
        Put(heapc + 4, ptr + need);
        Put(Word(heapc + 4), 0);
      }
    }

    /** The heap's block does not overlap the metadata, and lies in memory. */
    lemma BlockApart()
      requires Shaped() && buddy.live == home + {node} && node !in home
      ensures node.layer < buddy.geometry.layers
      ensures MEMORY_BASE + buddy.geometry.End(node) <= MEMORY_BASE + mem.Length <= WORD_LIMIT
      ensures heapc + 8 <= MEMORY_BASE + buddy.geometry.Offset(node) || MEMORY_BASE + buddy.geometry.End(node) <= heapc
      ensures Addressable(mem[..], heapc) && Addressable(mem[..], heapc + 4)
    {
      var g := buddy.geometry;
      BG.SpanInArena(node, g);
      BG.SpanInArena(meta, g);
      if meta.layer <= node.layer {
        BG.DisjointSpans(meta, node, g);
      } else {
        BG.DisjointSpans(node, meta, g);
      }
    }

    /** A request to a heap that has its block: into a gap, if one fits. */
    method MallocInGap(need: nat) returns (r: MallocResult, ghost j: nat)
      requires Valid() && !Empty() && need > HEADER
      modifies this`layout, this`sizes, mem
      ensures Valid() && !Empty()
      ensures r == NeedsBlock || r.Placed?
      ensures r.NeedsBlock? ==> NoGapFits(old(layout), need)
      ensures r.NeedsBlock? ==> layout == old(layout) && sizes == old(sizes) && mem[..] == old(mem[..])
      ensures r.Placed? ==> TookGap(old(layout), old(sizes), need, j, r.ptr, layout, sizes)
      ensures r.Placed? ==> KeptPayloads(old(mem[..]), mem[..], old(sizes))
    {
      hide Load, Store, Holds, BA.BuddyAllocator.Valid, NoneFits, Place, SamePayload, PlaceStores, Linked, Owns;
      InOneBlock();
      var found, bestAlloc, bestPrev, bestFree, bestAvail;
      found, bestAlloc, bestPrev, bestFree, bestAvail, j := SearchGap(need, need < HEAP_FIRST_FIT_MAX_SIZE);
      if !found {
        return NeedsBlock, j;
      }
      ghost var m, l := mem[..], layout;
      GapTaken(m, heapc, l, j, need, sizes);
      var ptr := AllocateInBetween(need, bestAlloc, bestPrev, bestFree, bestAvail, j);
      layout, sizes := Place(l, j, need), sizes[l.F[j] := need];
      r := Placed(ptr);
    }

    /** `malloc`; `j` is the gap the object goes into. */
    method Malloc(size: nat) returns (r: MallocResult, ghost j: nat)
      requires Valid()
      modifies this, mem, buddy.block, buddy.pageTables, buddy`live
      ensures Valid()
      ensures size == 0 ==> r == Null
      ensures r.Null? || r.NeedsBlock? ==>
        layout == old(layout) && sizes == old(sizes) && mem[..] == old(mem[..])
      ensures size > 0 && old(Empty()) ==>
        && !r.NeedsBlock?
        && (r.Null? <==> (size + HEADER > buddy.geometry.maxBlock ||
             BS.NoFreeBlock(home, buddy.geometry.layers, BS.FitLayer(buddy.geometry, size + HEADER))))
      ensures size > 0 && old(Empty()) && !r.Null? ==>
        && r == Placed(blockAt + HEADER) && size + HEADER <= blockSize
        && layout == FirstLayout(blockAt, blockAt + blockSize, size + HEADER) && sizes == map[blockAt := size + HEADER]
        && r == Placed(blockAt + 4) && RestFree(layout, blockAt, blockAt + blockSize, size + 4)
      ensures size > 0 && !old(Empty()) ==> !r.Null?
      ensures size > 0 && !old(Empty()) && r.NeedsBlock? ==> NoGapFits(old(layout), size + HEADER)
      ensures size > 0 && !old(Empty()) && r.Placed? ==>
        TookGap(old(layout), old(sizes), size + HEADER, j, r.ptr, layout, sizes)
      ensures r.Placed? ==> KeptPayloads(old(mem[..]), mem[..], old(sizes))
    {
      hide Valid, Vacant, Occupied, Load, Shaped, BS.NoFreeBlock, FirstLayout, BS.FitLayer, TookGap, NoGapFits, RestFree;
      j := 0;
      if size == 0 {
        return Null, j;
      }
      RootTells();
      if Word(heapc) == 0 {
        r := MallocFirst(size + HEADER);
      } else {
        r, j := MallocInGap(size + HEADER);
      }
    }

    lemma RootTells()
      requires Valid()
      ensures Shaped() && Addressable(mem[..], heapc) && (Word(heapc) == 0 <==> Empty())
      ensures Empty() ==> sizes == map[]
    {
      if !Empty() {
        ReadLinks(mem[..], heapc, layout, 0, 0);
      }
    }

    /** Takes object `i`, whose header is at `h`, out of the allocated list. */
    method Unlink(h: nat, ghost i: nat) returns (allocPtr: nat)
      requires Walkable() && i < |layout.A| && h == layout.A[i]
      modifies mem
      ensures old(Holds(mem[..], heapc, layout)) && mem[..] == UnlinkStores(old(mem[..]), heapc, layout, i)
      ensures allocPtr == Link(heapc, layout.A, i)
    {
      hide Load, Store, Holds, Linked;
      WalkFacts();
      ReadLinks(mem[..], heapc, layout, 0, 0);
      HeadersDiffer(mem[..], heapc, layout);
      ghost var m := mem[..];
      allocPtr := heapc;
      if Word(heapc) == h {
        ReadLinks(m, heapc, layout, 1, 0);
        Put(heapc, Word(Word(heapc)));
      } else {
        ghost var k: nat := 0;
        while allocPtr != 0 && Word(allocPtr) != 0 && Word(allocPtr) != h
          invariant mem[..] == m && k <= i && allocPtr == Link(heapc, layout.A, k) && 0 < allocPtr
          invariant Addressable(mem[..], allocPtr) && Word(allocPtr) == Target(layout.A, k)
          decreases i - k
        {
          allocPtr, k := Word(allocPtr), k + 1;
          ReadLinks(m, heapc, layout, k, 0);
        }
        ReadLinks(m, heapc, layout, k + 1, 0);
        Put(allocPtr, Word(Word(allocPtr)));
      }
    }

    /** Object `i` is unlinked, and the free list is as before. */
    ghost predicate Opened(h: nat, i: nat, j: nat)
      reads this, mem
    {
      && Open(mem[..], heapc, layout, i, j, h)
      && layout.base == blockAt && layout.limit == blockAt + blockSize && 0 < blockAt
    }

    /** The object lies below all free headers: it becomes the first, perhaps merged with the old first. */
    method ReconnectFront(h: nat, allocPtr: nat, ghost i: nat)
      requires Opened(h, i, 0) && |layout.F| > 0 && allocPtr == Link(heapc, Remove(layout.A, i), i)
      modifies mem
      ensures mem[..] == FreeStores(old(mem[..]), heapc, layout.F, h, 0, false, RightFree(layout, i, 0))
    {
      hide Load, Store, Open, Linked, Remove, RightFree, Link, Target;
      var root := heapc + 4;
      ghost var m := mem[..];
      InRange(m, heapc, layout, i, 0, h);
      OpenFront(m, heapc, layout, i, h);
      ghost var first, second, next := layout.F[0], Target(layout.F, 1), Word(allocPtr);
      FrontReads(m, root, h, first, second, allocPtr, next);
      Put(h, Word(root));
      Put(root, h);
      var rightSep := allocPtr != 0 && Word(root) != 0 &&
        (!InBlock(Word(Word(root))) || (InBlock(Word(allocPtr)) && Word(allocPtr) < Word(Word(root))));
      if !rightSep && Word(Word(root)) != 0 {
        Put(Word(root), Word(Word(Word(root))));
      }
    }

    /** The heap had no free header at all. */
    method ReconnectEmpty(h: nat, ghost i: nat)
      requires Opened(h, i, 0) && |layout.F| == 0
      modifies mem
      ensures mem[..] == FreeStores(old(mem[..]), heapc, layout.F, h, 0, false, false)
    {
      hide Load, Store, Open, Linked, Remove;
      ghost var m := mem[..];
      InRange(m, heapc, layout, i, 0, h);
      ReadOpen(m, heapc, layout, i, 0, h, 0, 0);
      StoresCommute(m, heapc + 4, h, h, 0);
      LoadStored(m, heapc + 4, h);
      Put(heapc + 4, h);
      Put(Word(heapc + 4), 0);
    }

    /** The walk to the last free header below `h`. */
    method LastFreeBelow(h: nat, ghost i: nat, ghost j: nat) returns (freePtr: nat)
      requires Opened(h, i, j) && 0 < j <= |layout.F|
      ensures freePtr == Link(heapc + 4, layout.F, j)
    {
      hide Load, Open, Linked, Remove;
      InRange(mem[..], heapc, layout, i, j, h);
      NeighbourTests(mem[..], heapc, layout, i, j, h);
      ReadOpen(mem[..], heapc, layout, i, j, h, 0, 0);
      ReadOpen(mem[..], heapc, layout, i, j, h, 0, 1);
      freePtr := Word(heapc + 4);
      ghost var q: nat := 1;
      while !InBlock(Word(freePtr)) || Word(freePtr) < h
        invariant 1 <= q <= j && freePtr == Link(heapc + 4, layout.F, q)
        invariant Addressable(mem[..], freePtr) && Word(freePtr) == Target(layout.F, q)
        decreases j - q
      {
        if Word(freePtr) != 0 {
          freePtr, q := Word(freePtr), q + 1;
          ReadOpen(mem[..], heapc, layout, i, j, h, 0, q);
        } else {
          break;
        }
      }
    }

    /** Some free header lies below the object: the four cases fanaf, fanf, fnaf and fnf. */
    method ReconnectBehind(h: nat, allocPtr: nat, ghost i: nat, ghost j: nat)
      requires Opened(h, i, j) && 0 < j <= |layout.F| && allocPtr == Link(heapc, Remove(layout.A, i), i)
      modifies mem
      ensures mem[..] ==
        FreeStores(old(mem[..]), heapc, layout.F, h, j, LeftFree(layout, i, j), RightFree(layout, i, j))
    {
      hide Load, Store, Open, Linked, Remove, RightFree, LeftFree, Link, Target;
      InRange(mem[..], heapc, layout, i, j, h);
      var freePtr := LastFreeBelow(h, i, j);
      OpenBehind(mem[..], heapc, layout, i, j, h);
      var leftSep := !InBlock(freePtr) || (InBlock(allocPtr) && allocPtr >= freePtr);
      var rightSep := allocPtr != 0 && freePtr != 0 &&
        (!InBlock(Word(freePtr)) || (InBlock(Word(allocPtr)) && Word(allocPtr) < Word(freePtr)));
      if leftSep {
        LoadOther(mem[..], h, Word(freePtr), freePtr);
        if rightSep {
          Put(h, Word(freePtr));
          Put(freePtr, h);
        } else {
          if Word(freePtr) != 0 {
            Put(h, Word(Word(freePtr)));
          }
          Put(freePtr, h);
        }
      } else if !rightSep && Word(freePtr) != 0 {
        Put(freePtr, Word(Word(freePtr)));
      }
    }

    /** `reconnect the free pointers`: the free list takes the unlinked object back. */
    method Reconnect(h: nat, allocPtr: nat, ghost i: nat, ghost j: nat)
      requires Opened(h, i, j) && allocPtr == Link(heapc, Remove(layout.A, i), i)
      modifies mem
      ensures |layout.F| == |layout.S| && j <= |layout.F|
      ensures mem[..] ==
        FreeStores(old(mem[..]), heapc, layout.F, h, j, LeftFree(layout, i, j), RightFree(layout, i, j))
    {
      FrontCase(mem[..], heapc, layout, i, j, h);
      hide Load, Open, FreeStores, LeftFree, RightFree, Link, Target, Remove;
      if InBlock(Word(heapc + 4)) && h < Word(heapc + 4) {
        ReconnectFront(h, allocPtr, i);
      } else if Word(heapc + 4) == 0 {
        ReconnectEmpty(h, i);
      } else {
        ReconnectBehind(h, allocPtr, i, j);
      }
    }

    /** `free_clear_blocks`: returns the block to the buddy allocator once no object is left in it. */
    method ClearBlock()
      requires Shaped() && buddy.Valid() && Addressable(mem[..], heapc) && Addressable(mem[..], heapc + 4)
      requires node !in home && buddy.live == home + {node} && node.layer < buddy.geometry.layers
      requires blockAt == MEMORY_BASE + buddy.geometry.Offset(node)
      requires InBlock(Word(heapc)) || (Word(heapc) == 0 && Word(heapc + 4) == 0)
      modifies this`blockAt, this`blockSize, buddy.block, buddy.pageTables, buddy`live
      ensures Shaped() && buddy.Valid()
      ensures old(InBlock(Word(heapc))) ==> blockAt == old(blockAt) && blockSize == old(blockSize) && buddy.live == old(buddy.live)
      ensures !old(InBlock(Word(heapc))) ==> blockAt == 0 && blockSize == 0 && buddy.live == home
    {
      hide Load, BA.BuddyAllocator.Valid, BT.Separate, BT.MaximalFree, BS.BlockRemapped, BT.Above, BG.Shl;
      var allocPtr := Word(heapc);
      if InBlock(allocPtr) {
        return; // an object is in the block
      }
      if allocPtr != 0 {
        assert false; // an object of another block, to go on from
      }
      assert meta in buddy.live && meta != node;
      ghost var f;
      var left;
      left, f := buddy.Free(blockAt, node);
      assert !left;
      assert buddy.live == home;
      var freePtr := Word(heapc + 4);
      if InBlock(freePtr) || freePtr != 0 {
        assert false; // a free header to take out, or to go on from
      }
      blockAt, blockSize := 0, 0;
    }

    /** `free` of the last object: both lists become empty and the block goes back. */
    method FreeLast(h: nat)
      requires Valid() && |layout.A| == 1 && h == layout.A[0]
      modifies this, mem, buddy.block, buddy.pageTables, buddy`live
      ensures Valid() && layout.A == [] && layout.F == [] && sizes == map[]
    {
      hide Load, Store, BA.BuddyAllocator.Valid, BT.Separate, OwnAll, Linked;
      InOneBlock();
      WalkFacts();
      var allocPtr := Unlink(h, 0);
      LoadStored(mem[..], heapc, 0);
      LoadOther(Store(mem[..], heapc, 0), heapc + 4, 0, heapc);
      LoadStored(Store(mem[..], heapc, 0), heapc + 4, 0);
      Put(heapc, 0);
      Put(heapc + 4, 0);
      ClearBlock();
      layout, sizes := Layout(0, 0, [], [], []), map[];
    }

    /** `free` of one object among several. */
    method FreeAmongOthers(h: nat, ghost i: nat, ghost j: nat)
      requires Valid() && |layout.A| > 1 && SplitAt(layout, i, j) && h == layout.A[i]
      modifies this, mem, buddy.block, buddy.pageTables, buddy`live
      ensures Valid() && old(SplitAt(layout, i, j)) && layout == Release(old(layout), i, j)
      ensures sizes == old(sizes) - {h} && KeptPayloads(old(mem[..]), mem[..], old(sizes) - {h})
    {
      hide Load, Store, BA.BuddyAllocator.Valid, BT.Separate, OwnAll, Linked, Holds, Release, KeptPayloads, UnlinkStores, FreeStores;
      InOneBlock();
      WalkFacts();
      ghost var m, l := mem[..], layout;
      ghost var p, m1, m2 := ObjectReleased(m, heapc, l, i, j, sizes);
      var allocPtr := Unlink(h, i);
      assert mem[..] == m1;
      Reconnect(h, allocPtr, i, j);
      assert mem[..] == m2;
      layout, sizes := p, sizes - {h};
      ClearBlock();
    }

    /** `free`; `i` is the position of the object among the allocated ones, `j` free headers lie below it. */
    method Free(ptr: nat) returns (ghost i: nat, ghost j: nat)
      requires Valid()
      requires ptr == 0 || (ptr >= HEADER && (ptr - HEADER in sizes || !HasBlock(ptr - HEADER)))
      modifies this, mem, buddy.block, buddy.pageTables, buddy`live
      ensures Valid()
      ensures ptr == 0 || ptr - HEADER !in old(sizes) ==>
        layout == old(layout) && sizes == old(sizes) && mem[..] == old(mem[..])
      ensures ptr != 0 && ptr - HEADER in old(sizes) ==> sizes == old(sizes) - {ptr - HEADER}
      ensures ptr != 0 && ptr - HEADER in old(sizes) ==> Freed(old(layout), ptr - HEADER, i, j, layout)
      ensures ptr != 0 && ptr - HEADER in old(sizes) && !Empty() ==>
        KeptPayloads(old(mem[..]), mem[..], old(sizes) - {ptr - HEADER})
    {
      hide Load, Store, Valid, Shaped, Vacant, Occupied, SplitAt, Release, KeptPayloads;
      i, j := 0, 0;
      if ptr == 0 {
        return;
      }
      var h := ptr - HEADER;
      KnowsObject(h);
      if !HasBlock(h) {
        return; // not in any of the memory blocks
      }
      i, j := Locate(h);
      if Word(heapc) == h && Word(h) == 0 {
        FreeLast(h);
      } else {
        FreeAmongOthers(h, i, j);
      }
    }

    lemma KnowsObject(h: nat)
      requires Valid() && (h in sizes || !HasBlock(h))
      ensures h in sizes ==> HasBlock(h) && !Empty()
    {
    }

    lemma Locate(h: nat) returns (i: nat, j: nat)
      requires Valid() && h in sizes
      ensures !Empty() && i < |layout.A| && layout.A[i] == h && SplitAt(layout, i, j)
      ensures Addressable(mem[..], heapc) && Addressable(mem[..], h)
      ensures Word(heapc) == h && Word(h) == 0 <==> |layout.A| == 1
      ensures |layout.A| == 1 ==> sizes - {h} == map[]
    {
      ObjectsInMemory(h);
      hide Valid, Empty, Holds, OwnAll, SplitAt, Load;
      i, j := ObjectAt(mem[..], heapc, layout, sizes, h);
    }

    lemma ObjectsInMemory(h: nat)
      requires Valid() && h in sizes
      ensures !Empty() && Holds(mem[..], heapc, layout) && OwnAll(layout, sizes)
    {
    }
  }

  /** Where an object for gap `j` has to be entered: its header, and the links to it in both lists. */
  ghost predicate EntersAt(heapc: nat, l: Layout, j: nat, bestAlloc: nat, bestPrev: nat, bestFree: nat) {
    && j < |l.F| == |l.S| && l.S[j] <= |l.A|
    && bestFree == l.F[j] && bestAlloc == Link(heapc, l.A, l.S[j]) && bestPrev == Link(heapc + 4, l.F, j)
  }

  lemma EntersHere(heapc: nat, l: Layout, q: nat)
    requires q < |l.F| == |l.S| && l.S[q] <= |l.A|
    ensures EntersAt(heapc, l, q, Link(heapc, l.A, l.S[q]), Link(heapc + 4, l.F, q), Target(l.F, q))
  {
  }

  /** No gap holds `need` bytes. */
  ghost predicate NoGapFits(l: Layout, need: nat) {
    |l.S| == |l.F| && NoneFits(l, need)
  }

  /**
    A request for `need` bytes, header included, was served from gap `j`: the lowest gap that fits
    if the request is small, and otherwise the smallest, lowest on ties.
   */
  ghost predicate TookGap(l: Layout, sizes: map<nat, nat>, need: nat, j: nat, ptr: nat, l': Layout, sizes': map<nat, nat>) {
    && |l.S| == |l.F| && Picked(l, need, need < HEAP_FIRST_FIT_MAX_SIZE, j) && l.S[j] <= |l.A|
    && ptr == l.F[j] + HEADER && l' == Place(l, j, need)
    && l.F[j] !in sizes && sizes' == sizes[l.F[j] := need]
  }

  /** A second request goes right behind the first one if it fits in the rest of the block, and else outgrows the block. */
  lemma BehindFirst(l: Layout, sizes: map<nat, nat>, base: nat, limit: nat, size: nat, need: nat)
    requires l.Valid() && RestFree(l, base, limit, size) && need > 4 && base + size <= limit
    ensures NoGapFits(l, need) <==> need > limit - (base + size)
    ensures forall j, ptr, l', sizes' {:trigger TookGap(l, sizes, need, j, ptr, l', sizes')} ::
      TookGap(l, sizes, need, j, ptr, l', sizes') ==> ptr == base + size + 4
  {
    OnlyGap(l, base, limit, size);
    if need <= limit - (base + size) {
      assert Fits(l, need, 0);
    }
  }

  /** What a gap is taken for, with the limit of first fit spelled out. */
  lemma TookGapMeans(l: Layout, sizes: map<nat, nat>, need: nat, j: nat, ptr: nat, l': Layout, sizes': map<nat, nat>)
    requires TookGap(l, sizes, need, j, ptr, l', sizes')
    ensures j < |l.F| && need <= l.Gap(j) && ptr == l.F[j] + 4
    ensures need < 8192 ==> forall k :: 0 <= k < j ==> l.Gap(k) < need
    ensures need >= 8192 ==> forall k :: 0 <= k < |l.F| && need <= l.Gap(k) ==>
      l.Gap(j) < l.Gap(k) || (l.Gap(j) == l.Gap(k) && j <= k)
  {
    assert forall k :: 0 <= k < |l.F| ==> (Fits(l, need, k) <==> need <= l.Gap(k));
  }

  ghost predicate KeptPayloads(m: seq<byte>, m': seq<byte>, sizes: map<nat, nat>) {
    forall a :: a in sizes ==> SamePayload(m, m', a, sizes[a])
  }

  lemma GapTaken(m: seq<byte>, heapc: nat, l: Layout, j: nat, need: nat, sizes: map<nat, nat>)
    requires Holds(m, heapc, l) && j < |l.F| && need > HEADER && Fits(l, need, j) && OwnAll(l, sizes)
    ensures Holds(PlaceStores(m, heapc, l, j, need), heapc, Place(l, j, need)) && |Place(l, j, need).A| > 0
    ensures Place(l, j, need).base == l.base && Place(l, j, need).limit == l.limit
    ensures l.F[j] !in sizes && OwnAll(Place(l, j, need), sizes[l.F[j] := need])
    ensures KeptPayloads(m, PlaceStores(m, heapc, l, j, need), sizes)
  {
    PlaceHolds(m, heapc, l, j, need);
    PlaceLists(l, j, need);
    PlaceOwns(l, j, need, sizes);
    hide PlaceStores;
    forall a | a in sizes
      ensures SamePayload(m, PlaceStores(m, heapc, l, j, need), a, sizes[a])
    {
      PlaceKeepsPayload(m, heapc, l, j, need, a, sizes[a]);
    }
  }

  /** What the search knows after `q` gaps: none fits, or `j` is the smallest that does, and the lowest of those. */
  ghost predicate BestSoFar(l: Layout, need: nat, found: bool, j: nat, q: nat, bestAvail: int)
    requires q <= |l.F| == |l.S|
  {
    if found then
      && j < q && Fits(l, need, j) && bestAvail == l.Gap(j)
      && forall i :: 0 <= i < q && Fits(l, need, i) ==> l.Gap(j) < l.Gap(i) || (l.Gap(j) == l.Gap(i) && j <= i)
    else
      bestAvail == NO_FIT_YET && forall i :: 0 <= i < q ==> !Fits(l, need, i)
  }

  lemma FirstLinks(heapc: nat, l: Layout)
    ensures Link(heapc, l.A, 0) == heapc && Link(heapc + 4, l.F, 0) == heapc + 4
  {
  }

  lemma BestStarts(l: Layout, need: nat)
    requires |l.F| == |l.S|
    ensures BestSoFar(l, need, false, 0, 0, NO_FIT_YET)
  {
  }

  lemma BestStep(l: Layout, need: nat, found: bool, j: nat, q: nat, bestAvail: int)
    requires q < |l.F| == |l.S| && BestSoFar(l, need, found, j, q, bestAvail) && l.Gap(q) < NO_FIT_YET
    ensures if need <= l.Gap(q) < bestAvail
      then BestSoFar(l, need, true, q, q + 1, l.Gap(q)) && !NoneFits(l, need) && (!found ==> Picked(l, need, true, q))
      else BestSoFar(l, need, found, j, q + 1, bestAvail)
  {
    assert need <= l.Gap(q) ==> Fits(l, need, q);
  }

  lemma BestOfAll(l: Layout, need: nat, found: bool, j: nat, bestAvail: int)
    requires |l.F| == |l.S| && BestSoFar(l, need, found, j, |l.F|, bestAvail)
    ensures found <==> !NoneFits(l, need)
    ensures found ==> Picked(l, need, false, j) && bestAvail == l.Gap(j)
  {
  }

  lemma ReadLinks(m: seq<byte>, heapc: nat, l: Layout, k: nat, q: nat)
    requires Holds(m, heapc, l) && k <= |l.A| && q <= |l.F|
    ensures Addressable(m, Link(heapc, l.A, k)) && Load(m, Link(heapc, l.A, k)) == Target(l.A, k)
    ensures Addressable(m, Link(heapc + 4, l.F, q)) && Load(m, Link(heapc + 4, l.F, q)) == Target(l.F, q)
  {
  }

  /** A non-null target is a free header, with a gap shorter than the sentinel. */
  lemma GapAt(m: seq<byte>, heapc: nat, l: Layout, q: nat)
    requires Holds(m, heapc, l) && q <= |l.F| && Target(l.F, q) != 0
    ensures q < |l.F| && l.S[q] <= |l.A| && l.base <= l.F[q] < l.limit
    ensures l.Gap(q) == (if l.S[q] < |l.A| then l.A[l.S[q]] else l.limit) - l.F[q]
    ensures l.S[q] < |l.A| ==> l.base <= l.A[l.S[q]] < l.limit
    ensures q + 1 < |l.F| ==> l.S[q] < l.S[q + 1]
  {
    GapNeighbours(l, q);
  }

  /** A null target ends the free list. */
  lemma NoGapLeft(m: seq<byte>, heapc: nat, l: Layout, q: nat)
    requires Holds(m, heapc, l) && q <= |l.F| && Target(l.F, q) == 0
    ensures q == |l.F|
  {
    if q < |l.F| {
      GapNeighbours(l, q);
      assert false;
    }
  }

  /** Where `malloc_allocate_in_between` writes. */
  lemma PlaceAddresses(m: seq<byte>, heapc: nat, l: Layout, j: nat, size: nat)
    requires Holds(m, heapc, l) && j < |l.F| == |l.S| && l.S[j] <= |l.A| && size > HEADER && Fits(l, size, j)
    ensures var bestFree, bestAlloc, bestPrev := l.F[j], Link(heapc, l.A, l.S[j]), Link(heapc + 4, l.F, j);
      && Addressable(m, bestFree) && Addressable(m, bestAlloc) && Addressable(m, bestPrev) && 0 < bestPrev
      && Apart(bestFree, bestAlloc) && Apart(bestPrev, bestAlloc)
      && bestFree < WORD_LIMIT && Target(l.F, j + 1) < WORD_LIMIT && Target(l.A, l.S[j]) < WORD_LIMIT
      && Load(m, bestFree) == Target(l.F, j + 1) && Load(m, bestAlloc) == Target(l.A, l.S[j])
      && (l.Gap(j) - size > HEADER ==>
           && bestFree + size < WORD_LIMIT && Addressable(m, bestFree + size) && Apart(bestFree + size, bestAlloc)
           && bestFree + size + HEADER != Target(l.A, l.S[j]))
  {
    hide Load, Place, LinkedBut;
    ListsApart(m, heapc, l);
    GapNeighbours(l, j);
    ReadLinks(m, heapc, l, l.S[j], j + 1);
    assert l.F[j] == Link(heapc + 4, l.F, j + 1);
    if l.Gap(j) - size > HEADER {
      PlaceValid(l, j, size);
      PlaceLists(l, j, size);
      var p := Place(l, j, size);
      ListsApart(m, heapc, p);
      assert Link(heapc, p.A, l.S[j]) == Link(heapc, l.A, l.S[j]);
      assert Link(heapc + 4, p.F, j + 1) == l.F[j] + size;
    }
  }

  lemma HeadersDiffer(m: seq<byte>, heapc: nat, l: Layout)
    requires Holds(m, heapc, l)
    ensures 0 < heapc
    ensures forall i, k :: 0 <= i < k < |l.A| ==> l.A[i] < l.A[k]
    ensures forall i :: 0 <= i < |l.A| ==> 0 < l.A[i]
  {
  }

  /** The memory while object `i`, with its header at `h`, is in neither list; `j` free headers lie below it. */
  ghost predicate Open(m: seq<byte>, heapc: nat, l: Layout, i: nat, j: nat, h: nat) {
    && l.Valid() && SplitAt(l, i, j) && h == l.A[i] && InMemory(m, heapc, l)
    && Linked(m, heapc, Remove(l.A, i)) && Linked(m, heapc + 4, l.F) && CrossApart(heapc, Remove(l.A, i), l.F)
    && Addressable(m, h) && h < WORD_LIMIT && Outside(h, heapc, Remove(l.A, i)) && Outside(h, heapc + 4, l.F)
    && forall k :: 0 <= k < |l.F| ==> l.F[k] < WORD_LIMIT
  }

  lemma ReadOpen(m: seq<byte>, heapc: nat, l: Layout, i: nat, j: nat, h: nat, k: nat, q: nat)
    requires Open(m, heapc, l, i, j, h) && k < |l.A| && q <= |l.F|
    ensures Addressable(m, Link(heapc, Remove(l.A, i), k))
    ensures Load(m, Link(heapc, Remove(l.A, i), k)) == Target(Remove(l.A, i), k)
    ensures Addressable(m, Link(heapc + 4, l.F, q)) && Load(m, Link(heapc + 4, l.F, q)) == Target(l.F, q)
    ensures Apart(h, Link(heapc, Remove(l.A, i), k)) && Apart(h, Link(heapc + 4, l.F, q))
    ensures Apart(Link(heapc, Remove(l.A, i), k), Link(heapc + 4, l.F, q))
    ensures Target(Remove(l.A, i), k) < WORD_LIMIT && Target(l.F, q) < WORD_LIMIT
  {
  }

  /** What `free` reads off the addresses of the neighbours. */
  lemma NeighbourTests(m: seq<byte>, heapc: nat, l: Layout, i: nat, j: nat, h: nat)
    requires Open(m, heapc, l, i, j, h)
    ensures var prev, next := Link(heapc, Remove(l.A, i), i), Target(Remove(l.A, i), i);
      && 0 < prev && (next == 0 || l.base <= next < l.limit) && l.base <= h < l.limit
      && (j < |l.F| ==> (RightFree(l, i, j) <==> !(next != 0 && next < l.F[j])))
      && (j > 0 ==> (LeftFree(l, i, j) <==> !(l.base <= prev < l.limit && prev >= l.F[j - 1])))
    ensures forall q :: 0 <= q < |l.F| ==> l.base <= l.F[q] < l.limit && (l.F[q] < h <==> q < j)
  {
    OpenLayout(m, heapc, l, i, j, h);
    hide Open;
    FreeOrder(l, i, j);
    RightNeighbour(l, i, j);
    LeftNeighbour(l, heapc, i, j);
  }

  lemma OpenLayout(m: seq<byte>, heapc: nat, l: Layout, i: nat, j: nat, h: nat)
    requires Open(m, heapc, l, i, j, h)
    ensures l.Valid() && SplitAt(l, i, j) && h == l.A[i] && 0 < heapc && 0 < l.base && (heapc + 8 <= l.base || l.limit <= heapc)
  {
  }

  lemma FreeOrder(l: Layout, i: nat, j: nat)
    requires l.Valid() && SplitAt(l, i, j)
    ensures l.base <= l.A[i] < l.limit
    ensures forall q :: 0 <= q < |l.F| ==> l.base <= l.F[q] < l.limit && (l.F[q] < l.A[i] <==> q < j)
  {
    forall q | 0 <= q < |l.F|
      ensures l.base <= l.F[q] < l.limit && (l.F[q] < l.A[i] <==> q < j)
    {
      GapNeighbours(l, q);
    }
  }

  lemma RightNeighbour(l: Layout, i: nat, j: nat)
    requires l.Valid() && SplitAt(l, i, j)
    ensures var next := Target(Remove(l.A, i), i);
      && (next == 0 || l.base <= next < l.limit)
      && (j < |l.F| ==> (RightFree(l, i, j) <==> !(next != 0 && next < l.F[j])))
  {
    if j < |l.F| {
      GapNeighbours(l, j);
    }
  }

  lemma LeftNeighbour(l: Layout, heapc: nat, i: nat, j: nat)
    requires l.Valid() && SplitAt(l, i, j) && 0 < heapc && 0 < l.base && (heapc + 8 <= l.base || l.limit <= heapc)
    ensures var prev := Link(heapc, Remove(l.A, i), i);
      && 0 < prev && (j > 0 ==> (LeftFree(l, i, j) <==> !(l.base <= prev < l.limit && prev >= l.F[j - 1])))
  {
    if j > 0 {
      GapNeighbours(l, j - 1);
    }
  }

  lemma InRange(m: seq<byte>, heapc: nat, l: Layout, i: nat, j: nat, h: nat)
    requires Open(m, heapc, l, i, j, h)
    ensures h < WORD_LIMIT && 0 < h && Addressable(m, h) && i < |l.A| && j <= |l.S| == |l.F|
  {
  }

  lemma OpenFront(m: seq<byte>, heapc: nat, l: Layout, i: nat, h: nat)
    requires Open(m, heapc, l, i, 0, h) && |l.F| > 0
    ensures var A, root, prev := Remove(l.A, i), heapc + 4, Link(heapc, Remove(l.A, i), i);
      var first, second, next := l.F[0], Target(l.F, 1), Target(A, i);
      && Addressable(m, h) && Addressable(m, root) && Addressable(m, first) && Addressable(m, prev)
      && Apart(h, root) && Apart(h, first) && Apart(root, first) && Apart(prev, h) && Apart(prev, root) && Apart(prev, first)
      && 0 < h < WORD_LIMIT && 0 < first < WORD_LIMIT && second < WORD_LIMIT && 0 < prev
      && Load(m, root) == first && Load(m, first) == second && Load(m, prev) == next
      && l.base <= first < l.limit && (next == 0 || l.base <= next < l.limit)
      && (RightFree(l, i, 0) <==> !(next != 0 && next < first))
      && root == Link(root, l.F, 0) && Target(l.F, 0) == first
  {
    hide Load;
    ReadOpen(m, heapc, l, i, 0, h, i, 0);
    ReadOpen(m, heapc, l, i, 0, h, i, 1);
    NeighbourTests(m, heapc, l, i, 0, h);
    InRange(m, heapc, l, i, 0, h);
    assert Link(heapc + 4, l.F, 1) == l.F[0] && Link(heapc + 4, l.F, 0) == heapc + 4;
  }

  /** The words read while the object is put in front, and the two memories that can result. */
  lemma FrontReads(m: seq<byte>, root: nat, h: nat, first: nat, second: nat, prev: nat, next: nat)
    requires Addressable(m, h) && Addressable(m, root) && Addressable(m, first) && Addressable(m, prev)
    requires Apart(h, root) && Apart(h, first) && Apart(root, first) && Apart(prev, h) && Apart(prev, root)
    requires h < WORD_LIMIT && first < WORD_LIMIT && second < WORD_LIMIT
    requires Load(m, root) == first && Load(m, first) == second && Load(m, prev) == next
    ensures var m' := Store(Store(m, h, first), root, h);
      && Load(m', root) == h && Load(m', h) == first && Load(m', first) == second && Load(m', prev) == next
      && Store(m', h, second) == Store(Store(m, h, second), root, h)
  {
    hide Load, Store;
    var m1 := Store(m, h, first);
    LoadStored(m, h, first);
    LoadOther(m, h, first, first);
    LoadOther(m, h, first, prev);
    LoadStored(m1, root, h);
    LoadOther(m1, root, h, h);
    LoadOther(m1, root, h, first);
    LoadOther(m1, root, h, prev);
    StoresCommute(m1, root, h, h, second);
    StoreHidden(m, h, first, second);
  }

  lemma OpenBehind(m: seq<byte>, heapc: nat, l: Layout, i: nat, j: nat, h: nat)
    requires Open(m, heapc, l, i, j, h) && 0 < j <= |l.F|
    ensures j <= |l.S|
    ensures var prev, next := Link(heapc, Remove(l.A, i), i), Target(Remove(l.A, i), i);
      var free, after := Link(heapc + 4, l.F, j), Target(l.F, j);
      && Addressable(m, h) && Addressable(m, free) && Addressable(m, prev) && Apart(h, free)
      && 0 < h < WORD_LIMIT && 0 < free && 0 < prev && after < WORD_LIMIT
      && l.base <= free < l.limit && (after == 0 || l.base <= after < l.limit)
      && Load(m, free) == after && Load(m, prev) == next
      && (LeftFree(l, i, j) <==> !(l.base <= prev < l.limit && prev >= free))
      && (RightFree(l, i, j) <==> after != 0 && !(l.base <= next < l.limit && next < after))
      && (after != 0 ==>
            j < |l.F| && Addressable(m, after) && Apart(h, after) &&
            Load(m, after) == Target(l.F, j + 1) < WORD_LIMIT)
  {
    hide Load;
    ReadOpen(m, heapc, l, i, j, h, i, j);
    NeighbourTests(m, heapc, l, i, j, h);
    InRange(m, heapc, l, i, j, h);
    assert Link(heapc + 4, l.F, j) == l.F[j - 1];
    if j < |l.F| {
      ReadOpen(m, heapc, l, i, j, h, i, j + 1);
    }
  }

  lemma FirstHeaderInside(l: Layout)
    requires l.Valid()
    ensures l.base <= Target(l.A, 0) < l.limit && |l.A| > 0
  {
  }

  /** Everything `free` establishes when another object stays. */
  lemma ObjectReleased(m: seq<byte>, heapc: nat, l: Layout, i: nat, j: nat, sizes: map<nat, nat>)
    returns (p: Layout, m1: seq<byte>, m2: seq<byte>)
    requires Holds(m, heapc, l) && SplitAt(l, i, j) && |l.A| > 1 && OwnAll(l, sizes)
    ensures p == Release(l, i, j) && p.base == l.base && p.limit == l.limit && |p.A| > 0
    ensures m1 == UnlinkStores(m, heapc, l, i) && Open(m1, heapc, l, i, j, l.A[i])
    ensures Link(heapc, l.A, i) == Link(heapc, Remove(l.A, i), i)
    ensures m2 == FreeStores(m1, heapc, l.F, l.A[i], j, LeftFree(l, i, j), RightFree(l, i, j))
    ensures Holds(m2, heapc, p) && OwnAll(p, sizes - {l.A[i]}) && KeptPayloads(m, m2, sizes - {l.A[i]})
    ensures Addressable(m2, heapc) && Addressable(m2, heapc + 4) && l.base <= Load(m2, heapc) < l.limit
  {
    SplitInRange(l, i, j);
    hide *;
    p, m1 := Release(l, i, j), UnlinkStores(m, heapc, l, i);
    m2 := FreeStores(m1, heapc, l.F, l.A[i], j, LeftFree(l, i, j), RightFree(l, i, j));
    ReleasedShape(m, heapc, l, i, j);
    UnlinkedOpen(m, heapc, l, i, j);
    ReleaseHolds(m, heapc, l, i, j);
    ReleaseOwns(m, heapc, l, i, j, sizes);
    ReleaseKept(m, heapc, l, i, j, sizes);
    RootInBlock(m2, heapc, p);
  }

  lemma ReleaseOwns(m: seq<byte>, heapc: nat, l: Layout, i: nat, j: nat, sizes: map<nat, nat>)
    requires Holds(m, heapc, l) && SplitAt(l, i, j) && OwnAll(l, sizes)
    ensures OwnAll(Release(l, i, j), sizes - {l.A[i]})
  {
    HoldsParts(m, heapc, l);
    hide *;
    HeapPayload.ReleaseOwns(l, i, j, sizes);
  }

  lemma ReleasedShape(m: seq<byte>, heapc: nat, l: Layout, i: nat, j: nat)
    requires Holds(m, heapc, l) && SplitAt(l, i, j) && |l.A| > 1
    ensures var p := Release(l, i, j); p.base == l.base && p.limit == l.limit && |p.A| > 0
    ensures Link(heapc, l.A, i) == Link(heapc, Remove(l.A, i), i)
  {
    ReleaseLists(l, i, j);
    hide Release, Holds;
  }

  lemma UnlinkedOpen(m: seq<byte>, heapc: nat, l: Layout, i: nat, j: nat)
    requires Holds(m, heapc, l) && SplitAt(l, i, j)
    ensures Open(UnlinkStores(m, heapc, l, i), heapc, l, i, j, l.A[i])
  {
    HoldsParts(m, heapc, l);
    Unlinked(m, heapc, l, i);
    hide Holds, Linked, UnlinkStores, Layout.Valid, CrossApart, Outside, Remove;
  }

  lemma ReleaseKept(m: seq<byte>, heapc: nat, l: Layout, i: nat, j: nat, sizes: map<nat, nat>)
    requires Holds(m, heapc, l) && SplitAt(l, i, j) && OwnAll(l, sizes)
    ensures KeptPayloads(m, FreeStores(UnlinkStores(m, heapc, l, i), heapc, l.F, l.A[i], j, LeftFree(l, i, j), RightFree(l, i, j)),
      sizes - {l.A[i]})
  {
    hide FreeStores, UnlinkStores, SamePayload, Owns, Holds, SplitAt;
    forall a | a in sizes
    {
      ReleaseKeepsPayload(m, heapc, l, i, j, a, sizes[a]);
    }
  }

  lemma RootInBlock(m: seq<byte>, heapc: nat, l: Layout)
    requires Holds(m, heapc, l)
    ensures Addressable(m, heapc) && Addressable(m, heapc + 4) && l.base <= Load(m, heapc) < l.limit
  {
    ReadLinks(m, heapc, l, 0, 0);
    FirstHeaderInside(l);
    hide Load, Linked;
  }

  /** The position of a live object in the layout, and how the words of its header and of the root tell that it is the last. */
  lemma ObjectAt(m: seq<byte>, heapc: nat, l: Layout, sizes: map<nat, nat>, h: nat) returns (i: nat, j: nat)
    requires Holds(m, heapc, l) && OwnAll(l, sizes) && h in sizes
    ensures i < |l.A| && l.A[i] == h && SplitAt(l, i, j)
    ensures Addressable(m, heapc) && Addressable(m, h)
    ensures Load(m, heapc) == h && Load(m, h) == 0 <==> |l.A| == 1
    ensures |l.A| == 1 ==> sizes - {h} == map[]
  {
    ObjectsAre(l, sizes);
    hide OwnAll, Load, Linked;
    i :| 0 <= i < |l.A| && l.A[i] == h;
    j := FreeSplit(l, i);
    LastObject(m, heapc, l, i);
    if |l.A| == 1 {
      assert sizes.Keys == {h};
    }
  }

  lemma ObjectsAre(l: Layout, sizes: map<nat, nat>)
    requires OwnAll(l, sizes)
    ensures forall a :: a in sizes <==> a in l.A
  {
  }

  lemma LastObject(m: seq<byte>, heapc: nat, l: Layout, i: nat)
    requires Holds(m, heapc, l) && i < |l.A|
    ensures Addressable(m, heapc) && Addressable(m, l.A[i])
    ensures Load(m, heapc) == l.A[i] && Load(m, l.A[i]) == 0 <==> |l.A| == 1
  {
    HeadersDiffer(m, heapc, l);
    ReadLinks(m, heapc, l, 0, 0);
    ReadLinks(m, heapc, l, i + 1, 0);
    hide Holds, Load;
    assert Link(heapc, l.A, i + 1) == l.A[i];
  }

  lemma FreeSplit(l: Layout, i: nat) returns (j: nat)
    requires l.Valid() && i < |l.A|
    ensures SplitAt(l, i, j)
  {
    j := 0;
    while j < |l.S| && l.S[j] <= i
      invariant j <= |l.S| && forall k :: 0 <= k < j ==> l.S[k] <= i
    {
      j := j + 1;
    }
  }

  /** Object `i` of `l` was released: alone it empties the heap, otherwise it merges with its free neighbours. */
  ghost predicate Freed(l: Layout, h: nat, i: nat, j: nat, l': Layout) {
    && SplitAt(l, i, j) && l.A[i] == h
    && if |l.A| == 1 then l'.A == [] && l'.F == [] else l' == Release(l, i, j)
  }

  ghost function Headers(ptrs: seq<nat>): set<nat>
    requires forall i :: 0 <= i < |ptrs| ==> ptrs[i] >= HEADER
  {
    set i | 0 <= i < |ptrs| :: ptrs[i] - HEADER
  }

  /**
    Freeing every object, in whatever order, empties both lists, clears the block's slot and
    leaves the buddy bitmap as it was before the first `malloc`, here given as `before`.
   */
  method FreeAll(heap: Heap, ptrs: seq<nat>, ghost before: seq<bv8>)
    requires heap.Valid()
    requires forall i :: 0 <= i < |ptrs| ==> ptrs[i] >= HEADER
    requires forall i, k :: 0 <= i < k < |ptrs| ==> ptrs[i] != ptrs[k]
    requires heap.sizes.Keys == Headers(ptrs)
    requires BM.Represents(before, heap.home, heap.buddy.geometry.layers)
    modifies heap, heap.mem, heap.buddy.block, heap.buddy.pageTables, heap.buddy`live
    ensures heap.Valid() && heap.layout.A == [] && heap.layout.F == [] && heap.blockAt == 0 && heap.blockSize == 0
    ensures heap.buddy.live == heap.home && heap.buddy.block[..] == before
  {
    hide Heap.Valid, Freed, BM.Represents;
    var n := 0;
    while n < |ptrs|
      invariant n <= |ptrs| && heap.Valid()
      invariant heap.sizes.Keys == Headers(ptrs[n..])
    {
      StillLive(ptrs, n);
      ghost var i, j := heap.Free(ptrs[n]);
      n := n + 1;
    }
    AllFreed(heap, before);
  }

  lemma AllFreed(heap: Heap, before: seq<bv8>)
    requires heap.Valid() && heap.sizes.Keys == {}
    requires BM.Represents(before, heap.home, heap.buddy.geometry.layers)
    ensures heap.layout.A == [] && heap.layout.F == [] && heap.blockAt == 0 && heap.blockSize == 0
    ensures heap.buddy.live == heap.home && heap.buddy.block[..] == before
  {
    hide BM.MarkAt;
    if !heap.Empty() {
      SomethingLive(heap);
    }
    BM.BitmapDeterminedByLive(heap.buddy.block[..], before, heap.home, heap.buddy.geometry.layers);
  }

  lemma StillLive(ptrs: seq<nat>, n: nat)
    requires n < |ptrs| && forall i :: 0 <= i < |ptrs| ==> ptrs[i] >= HEADER
    requires forall i, k :: 0 <= i < k < |ptrs| ==> ptrs[i] != ptrs[k]
    ensures ptrs[n] - HEADER in Headers(ptrs[n..])
    ensures Headers(ptrs[n + 1..]) == Headers(ptrs[n..]) - {ptrs[n] - HEADER}
  {
    var s, t := ptrs[n..], ptrs[n + 1..];
    assert s[0] == ptrs[n];
    forall i | 0 <= i < |t|
      ensures t[i] == s[i + 1] && t[i] == ptrs[n + 1 + i]
    {
    }
    forall i | 1 <= i < |s|
      ensures s[i] == t[i - 1]
    {
    }
  }

  lemma SomethingLive(heap: Heap)
    requires heap.Valid() && !heap.Empty()
    ensures heap.sizes.Keys != {}
  {
    assert heap.layout.A[0] in heap.sizes;
  }

  /** How `free` tells where the object lies among the free headers. */
  lemma FrontCase(m: seq<byte>, heapc: nat, l: Layout, i: nat, j: nat, h: nat)
    requires Open(m, heapc, l, i, j, h)
    ensures Addressable(m, heapc + 4) && i < |l.A| && j <= |l.F| == |l.S|
    ensures if |l.F| == 0 then Load(m, heapc + 4) == 0 && j == 0 && !LeftFree(l, i, j) && !RightFree(l, i, j)
      else Load(m, heapc + 4) == l.F[0] > 0 && l.base <= l.F[0] < l.limit && (h < l.F[0] <==> j == 0)
    ensures j == 0 ==> !LeftFree(l, i, j)
  {
    hide Load;
    InRange(m, heapc, l, i, j, h);
    NeighbourTests(m, heapc, l, i, j, h);
    ReadOpen(m, heapc, l, i, j, h, 0, 0);
    if |l.F| > 0 {
      ReadOpen(m, heapc, l, i, j, h, 0, 1);
      assert Link(heapc + 4, l.F, 1) == l.F[0];
    }
  }

  /** Two requests of an empty heap: the second object lies right behind the first, if the rest of the block holds it. */
  method MallocTwice(heap: Heap, a: nat, b: nat) returns (p: MallocResult, q: MallocResult)
    requires heap.Valid() && heap.Empty() && a > 0 && b > 0
    modifies heap, heap.mem, heap.buddy.block, heap.buddy.pageTables, heap.buddy`live
    ensures heap.Valid()
    ensures p.Placed? ==> q == if a + 4 + b + 4 <= heap.blockSize then Placed(p.ptr + a + 4) else NeedsBlock
  {
    hide *;
    ghost var j;
    EmptyLayout(heap);
    p, j := heap.Malloc(a);
    q := Null;
    if p.Placed? {
      ghost var l, sizes, at, size := heap.layout, heap.sizes, heap.blockAt, heap.blockSize;
      RestFields(l, at, at + size, a + 4);
      BlockOf(heap);
      EmptyLayout(heap);
      q, j := heap.Malloc(b);
      BehindFirst(l, sizes, at, at + size, a + 4, b + 4);
      if q.Placed? {
        TookFields(l, sizes, b + 4, j, q.ptr, heap.layout, heap.sizes);
      }
      BlockOf(heap);
    }
  }

  lemma EmptyLayout(heap: Heap)
    ensures heap.Empty() <==> heap.layout.A == []
    ensures HEADER == 4
  {
  }

  lemma RestFields(l: Layout, base: nat, limit: nat, size: nat)
    requires RestFree(l, base, limit, size)
    ensures l.A == [base] && l.base == base && l.limit == limit
  {
  }

  lemma TookFields(l: Layout, sizes: map<nat, nat>, need: nat, j: nat, ptr: nat, l': Layout, sizes': map<nat, nat>)
    requires TookGap(l, sizes, need, j, ptr, l', sizes')
    ensures l'.base == l.base && l'.limit == l.limit && l'.A != []
    ensures !NoGapFits(l, need)
  {
  }

  /** The block of a heap that holds an object. */
  lemma BlockOf(heap: Heap)
    requires heap.Valid() && heap.layout.A != []
    ensures heap.layout.Valid() && heap.layout.base == heap.blockAt && heap.layout.limit == heap.blockAt + heap.blockSize
  {
  }
}
