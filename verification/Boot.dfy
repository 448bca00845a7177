/** From the firmware's memory map to an empty heap: `buddy_init` followed by `heap_init`. */
module Boot {
  import opened Basics
  import opened Bitmap
  import opened BuddyTree
  import opened BuddyGeometry
  import opened BuddyMarks
  import opened BuddySearch
  import opened BuddyAllocation
  import opened BuddyInitialisation
  import BR = BuddyRuns
  import HM = RawMemory
  import H = Heap
  import opened Paging

  const HEAP_CACHE_SIZE: nat := 48 // twelve words

  /**
    `heap_init`: the metadata is a buddy block that is never released. The table of heap blocks fills it behind the
    roots and cursors; `tableBytes`, its length, is the result of the call and 0 on failure.
   */
  method HeapInit(buddy: BuddyAllocator) returns (heap: Option<H.Heap>, tableAt: nat, tableBytes: nat, ghost f: Node)
    requires buddy.Valid()
    modifies buddy.block, buddy.pageTables, buddy`live
    ensures buddy.Valid()
    ensures heap.None? <==>
      (16384 > buddy.geometry.maxBlock ||
       NoFreeBlock(old(buddy.live), buddy.geometry.layers, FitLayer(buddy.geometry, 16384)))
    ensures heap.None? ==> buddy.live == old(buddy.live) && buddy.block[..] == old(buddy.block[..])
    ensures heap.None? <==> tableBytes == 0
    ensures heap.Some? ==>
      && heap.value.meta.layer < buddy.geometry.layers
      && heap.value.heapc + 48 <= tableAt < heap.value.heapc + 48 + 4 && tableBytes % 4 == 0
      && tableAt + tableBytes == heap.value.heapc + buddy.geometry.BlockSize(heap.value.meta.layer)
    ensures heap.Some? ==>
      && fresh(heap.value) && fresh(heap.value.mem) && heap.value.buddy == buddy
      && heap.value.Valid() && heap.value.Empty()
      && heap.value.home == old(buddy.live) + {heap.value.meta} && heap.value.meta !in old(buddy.live)
      && var k := FitLayer(buddy.geometry, 16384);
         Chosen(old(buddy.live), buddy.geometry.layers, k, f) && heap.value.meta == Leftmost(f, k)
  {
    hide Mapped, Above, BlockRemapped, NoFreeBlock, MaximalFree, Shl, Chosen, Leftmost, FitLayer, Separate;
    var ptr, blockSize;
    ptr, blockSize, f := buddy.Alloc(H.HEAP_METADATA_SIZE);
    if ptr == 0 {
      return None, 0, 0, f;
    }
    ghost var k := FitLayer(buddy.geometry, H.HEAP_METADATA_SIZE);
    ChosenLayer(old(buddy.live), buddy.geometry.layers, k, f);
    hide BuddyAllocator.Valid, H.Heap.Valid;
    var h := new H.Heap(buddy, ptr, Leftmost(f, k));
    var words := (blockSize - HEAP_CACHE_SIZE) / 4;
    tableBytes := words * 4;
    tableAt := ptr + blockSize - tableBytes;
    heap := Some(h);
  }

  /** A region whose length fits a signed 32-bit integer and which the allocator can divide into its 14 layers. */
  predicate Supported(b: MemoryBlock) {
    0x8000 <= b.length < 0x8000_0000 && b.begin + b.length <= 0x1_0000_0000
  }

  /** In a fresh arena the metadata fits, at its first byte. */
  lemma FirstBlock(g: Geometry, f: Node)
    requires g.Valid() && H.HEAP_METADATA_SIZE <= g.maxBlock
    ensures var k := FitLayer(g, H.HEAP_METADATA_SIZE);
      && !NoFreeBlock({}, g.layers, k)
      && (Chosen({}, g.layers, k, f) ==> f.layer <= k && g.Offset(Leftmost(f, k)) == 0)
  {
    BR.FreshChosen(g, FitLayer(g, H.HEAP_METADATA_SIZE), f);
  }

  lemma ChosenLayer(live: set<Node>, layers: nat, k: nat, f: Node)
    requires Chosen(live, layers, k, f)
    ensures f.layer <= k
  {
  }

  lemma RoomForMetadata(b: MemoryBlock, layers: nat)
    requires Supported(b) && BitsOf(b.length / 2, layers)
    ensures GeometryFor(b, layers).Valid() && GeometryFor(b, layers).maxBlock >= H.HEAP_METADATA_SIZE
  {
    InitGivesValidGeometry(b, layers);
    MaxBlockIsLargestPower(b, b.length, layers);
    Pow2Fifteen();
    if layers < 15 {
      Pow2Monotone(layers, 14);
    } else {
      Pow2Monotone(14, layers - 1);
    }
  }

  method StartPaging(g: Geometry, tableAt: seq<nat>) returns (buddy: BuddyAllocator, mmu: Mmu)
    requires g.Valid()
    requires |tableAt| == BUDDY_PAGE_TABLES && forall k :: 0 <= k < |tableAt| ==> tableAt[k] % PAGE == 0
    ensures fresh(buddy) && fresh(buddy.block) && fresh(buddy.pageTables) && buddy.Valid()
    ensures buddy.geometry == g && buddy.live == {}
    ensures fresh(mmu) && mmu.buddy == buddy && mmu.tableAt == tableAt && mmu.Shaped() && mmu.Installed()
    ensures mmu.directory != buddy.pageTables && mmu.directory as object != buddy.block as object
  {
    hide Represents, Mapped, Separate;
    buddy := new BuddyAllocator(g);
    mmu := new Mmu(buddy, tableAt);
    mmu.InstallTables();
  }

  /**
    The start of the system. Whenever the largest usable region is one the allocator supports, an empty heap
    stands at the end of it, with the metadata, at the first byte of the arena, as its only live block, and the
    page directory leads to the allocator's tables, which lie at `tableAt`. Blocks are whole pages if and only if
    the region has at least 64 MB. It fails only if no region is usable.
   */
  method Start(blocks: seq<MemoryBlock>, tableAt: seq<nat>) returns (heap: Option<H.Heap>, mmu: Option<Mmu>, ghost chosen: nat)
    requires forall i: nat :: Largest(blocks, i) ==> Supported(blocks[i])
    requires |tableAt| == BUDDY_PAGE_TABLES && forall k :: 0 <= k < |tableAt| ==> tableAt[k] % PAGE == 0
    ensures heap.None? <==> forall j :: 0 <= j < |blocks| && blocks[j].usable ==> Int32(blocks[j].length) <= 0
    ensures heap.Some? ==>
      && fresh(heap.value) && fresh(heap.value.buddy) && fresh(heap.value.mem)
      && heap.value.Valid() && heap.value.Empty() && heap.value.home == {heap.value.meta}
      && heap.value.heapc == BUDDY_ALLOC_VIRADR && heap.value.buddy.geometry.layers == BUDDY_LAYERS
    ensures heap.Some? ==>
      && mmu.Some? && fresh(mmu.value) && mmu.value.buddy == heap.value.buddy && mmu.value.tableAt == tableAt
      && mmu.value.Shaped() && mmu.value.Installed()
    ensures heap.Some? ==>
      && Largest(blocks, chosen)
      && (heap.value.buddy.geometry.minBlock % PAGE == 0 <==> blocks[chosen].length >= 0x400_0000)
  {
    hide BuddyAllocator.Valid, H.Heap.Valid, NoFreeBlock, Chosen, FitLayer, GeometryFor, Leftmost, Geometry.Valid, Mmu.Shaped, Mmu.Installed;
    var g;
    g, chosen := BuddyInit(blocks);
    if g.None? {
      return None, None, chosen;
    }
    StartGeometry(blocks, chosen, g.value);
    var buddy, m := StartPaging(g.value, tableAt);
    mmu := Some(m);
    ghost var f;
    var blockTable, bytes;
    heap, blockTable, bytes, f := HeapInit(buddy);
    assert m.Installed();
    FirstBlock(g.value, f);
    if heap.Some? {
      HeapShaped(heap.value);
    }
  }

  lemma StartGeometry(blocks: seq<MemoryBlock>, chosen: nat, g: Geometry)
    requires Largest(blocks, chosen) && Supported(blocks[chosen])
    requires exists layers :: BitsOf(Int32(blocks[chosen].length) / 2, layers) && g == GeometryFor(blocks[chosen], layers)
    ensures g.Valid() && g.maxBlock >= H.HEAP_METADATA_SIZE && g.layers == BUDDY_LAYERS
    ensures g.minBlock % PAGE == 0 <==> blocks[chosen].length >= 0x400_0000
  {
    hide GeometryFor, Geometry.Valid;
    var layers :| BitsOf(Int32(blocks[chosen].length) / 2, layers) && g == GeometryFor(blocks[chosen], layers);
    RoomForMetadata(blocks[chosen], layers);
    InitGivesValidGeometry(blocks[chosen], layers);
    WholePagesIff(blocks[chosen], layers);
  }

  lemma HeapShaped(heap: H.Heap)
    requires heap.Valid()
    ensures heap.meta.layer < heap.buddy.geometry.layers
    ensures heap.heapc == HM.MEMORY_BASE + heap.buddy.geometry.Offset(heap.meta)
  {
  }
}
