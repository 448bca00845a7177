/** Whole runs of the buddy allocator, and its free bytes. */
module BuddyRuns {
  import opened Bitmap
  import opened BuddyTree
  import opened BuddyGeometry
  import opened BuddyMarks
  import opened BuddySearch
  import opened BuddyAllocation
  import opened Sequences

  // ---- blocks below one page ----

  /** In a fresh arena a request is carved from the first byte on. */
  lemma FreshChosen(g: Geometry, k: nat, f: Node)
    requires g.Valid() && k < g.layers
    ensures !NoFreeBlock({}, g.layers, k)
    ensures Chosen({}, g.layers, k, f) ==> f == Node(0, 0) && Leftmost(f, k) == Node(k, 0)
  {
    EmptyFree(Node(k, 0));
    assert InTree(Node(k, 0), g.layers);
    if Chosen({}, g.layers, k, f) {
      if f.layer > 0 {
        EmptyFree(Parent(f));
        assert false;
      }
      LeftmostOfFirst(0, k);
    }
  }

  lemma EmptyFree(n: Node)
    ensures BuddyTree.Free({}, n)
  {
  }

  lemma {:induction false} LeftmostOfFirst(i: nat, k: nat)
    requires i <= k
    ensures Leftmost(Node(i, 0), k) == Node(k, 0)
    decreases k - i
  {
    if i < k {
      LeftmostOfFirst(i + 1, k);
    }
  }

  /** With the first of the smallest blocks live, the next one is its buddy. */
  lemma SecondChosen(g: Geometry, k: nat, f: Node)
    requires g.Valid() && k == g.layers - 1
    ensures !NoFreeBlock({Node(k, 0)}, g.layers, k)
    ensures Chosen({Node(k, 0)}, g.layers, k, f) ==> f == Node(k, 1) && Leftmost(f, k) == f
  {
    var live, second := {Node(k, 0)}, Node(k, 1);
    SecondFree(k);
    assert InTree(second, g.layers) by { assert Pow2(k) == 2 * Pow2(k - 1); }
    if Chosen(live, g.layers, k, f) {
      assert Above(Node(k, 0), Node(k, 0));
      assert f.layer == k && f.idx <= 1;
    }
  }

  lemma SecondFree(k: nat)
    requires k > 0
    ensures MaximalFree({Node(k, 0)}, Node(k, 1))
  {
    var a, b := Node(k, 0), Node(k, 1);
    if Above(a, b) {
      AboveLayer(a, b);
    }
    if Above(b, a) {
      AboveLayer(b, a);
    }
    assert Parent(a) == Parent(b) == Node(k - 1, 0);
    AboveSelfParent(a);
  }

  lemma SmallestFits(g: Geometry)
    requires g.Valid()
    ensures FitLayer(g, 1) == g.layers - 1 && g.BlockSize(g.layers - 1) == g.minBlock
  {
  }

  /** A released block whose buddy is live merges with nothing. */
  lemma StaysSplit(k: nat, f: Node)
    requires k > 0 && BuddyTree.Free({Node(k, 0)}, f) && Above(f, Node(k, 1))
    ensures f == Node(k, 1)
  {
    hide *;
    if f != Node(k, 1) {
      AboveBuddy(k, f);
      NotFreeAbove(Node(k, 0), f);
      assert false;
    }
  }

  lemma AboveBuddy(k: nat, f: Node)
    requires k > 0 && Above(f, Node(k, 1)) && f != Node(k, 1)
    ensures Above(f, Node(k, 0))
  {
    assert Parent(Node(k, 1)) == Parent(Node(k, 0));
    AboveSelfParent(Node(k, 0));
    AboveTrans(f, Parent(Node(k, 0)), Node(k, 0));
  }

  lemma NotFreeAbove(a: Node, f: Node)
    requires Above(f, a)
    ensures !BuddyTree.Free({a}, f)
  {
    hide Above;
    assert Marked({a}, f);
  }

  lemma FirstPage(g: Geometry, k: nat)
    requires g.Valid() && k == g.layers - 1 && 2 * g.minBlock <= PAGE
    ensures OwnsPage(g, Node(k, 0), 0) && InPages(g.Offset(Node(k, 1)), g.BlockSize(k), 0)
  {
    assert g.BlockSize(k) == g.minBlock;
  }

  /**
    When two of the smallest blocks fit in a page, a release takes another live block's page away: of two blocks
    allocated in a fresh arena the second is released, and the entry of the first is reset.
   */
  method SharedPageLost(b: BuddyAllocator) returns (ghost first: Node)
    requires b.Valid() && b.live == {} && 2 * b.geometry.minBlock <= PAGE && b.geometry.start > 0
    modifies b.block, b.pageTables, b`live
    ensures b.Valid() && b.live == {first} && first.layer < b.geometry.layers && OwnsPage(b.geometry, first, 0)
    ensures b.pageTables[0] == PAGE_FLAGS != MappedEntry(b.geometry, 0)
  {
    hide MarkAt, Mapped, Above, Represents, NoFreeBlock, Shl, Chosen, Leftmost, Separate, FitLayer, BuddyTree.Free;
    ghost var g, k := b.geometry, b.geometry.layers - 1;
    ghost var second;
    first, second := Node(k, 0), Node(k, 1);
    SmallestFits(g);
    var p, size;
    ghost var f;
    p, size, f := b.Alloc(1);
    FreshChosen(g, k, f);
    assert b.live == {first};
    p, size, f := b.Alloc(1);
    SecondChosen(g, k, f);
    assert b.live == {first, second};
    var left;
    left, f := b.Free(p, second);
    assert b.live == {first};
    StaysSplit(k, f);
    FirstPage(g, k);
  }

  // ---- free bytes ----

  ghost function FreeBytes(live: set<Node>, g: Geometry): nat {
    Total(MaximalFreeBlocks(live, g.layers), g)
  }

  /** An allocation takes exactly the bytes of its block away, however many free blocks the search had to split. */
  lemma AllocTakes(live: set<Node>, g: Geometry, r: Node)
    requires g.Valid() && Separate(live, g.layers) && InTree(r, g.layers) && BuddyTree.Free(live, r)
    ensures FreeBytes(live + {r}, g) + g.BlockSize(r.layer) == FreeBytes(live, g)
  {
    AddSeparate(live, g.layers, r);
    BytesConserved(live, g);
    BytesConserved(live + {r}, g);
    TotalTake(live + {r}, g, r);
    assert live + {r} - {r} == live;
  }

  /** A release gives them back, however many blocks it coalesces. */
  lemma FreeGives(live: set<Node>, g: Geometry, n: Node)
    requires g.Valid() && Separate(live, g.layers) && n in live
    ensures FreeBytes(live - {n}, g) == FreeBytes(live, g) + g.BlockSize(n.layer)
  {
    RemoveSeparate(live, g.layers, n);
    AllocTakes(live - {n}, g, n);
    assert live - {n} + {n} == live;
  }

  // ---- runs ----

  datatype Step = Take(size: nat) | Give(i: nat)

  /** The program holds the blocks `nodes`, by their addresses; all other live blocks are those of `base`. */
  ghost predicate Holding(g: Geometry, base: set<Node>, live: set<Node>, ptrs: seq<nat>, nodes: seq<Node>) {
    && |ptrs| == |nodes|
    && (forall n :: n in live <==> n in base || n in nodes)
    && (forall i :: 0 <= i < |nodes| ==> nodes[i] !in base)
    && (forall i, k :: 0 <= i < k < |nodes| ==> nodes[i] != nodes[k])
    && (forall i :: 0 <= i < |nodes| ==> nodes[i].layer < g.layers && ptrs[i] == BUDDY_ALLOC_VIRADR + g.Offset(nodes[i]))
  }

  lemma HoldingMore(g: Geometry, base: set<Node>, live: set<Node>, ptrs: seq<nat>, nodes: seq<Node>, p: nat, r: Node)
    requires Holding(g, base, live, ptrs, nodes) && r !in live
    requires r.layer < g.layers && p == BUDDY_ALLOC_VIRADR + g.Offset(r)
    ensures Holding(g, base, live + {r}, ptrs + [p], nodes + [r])
  {
  }

  lemma HoldingLess(g: Geometry, base: set<Node>, live: set<Node>, ptrs: seq<nat>, nodes: seq<Node>, i: nat)
    requires Holding(g, base, live, ptrs, nodes) && i < |nodes|
    ensures Holding(g, base, live - {nodes[i]}, Remove(ptrs, i), Remove(nodes, i))
  {
    hide Remove, Geometry.Offset;
    RemoveMembers(nodes, i);
    var ptrs', nodes' := Remove(ptrs, i), Remove(nodes, i);
    HeldPlaces(g, base, live, ptrs, nodes, i);
    assert nodes[i] in nodes;
  }

  lemma HeldPlaces(g: Geometry, base: set<Node>, live: set<Node>, ptrs: seq<nat>, nodes: seq<Node>, i: nat)
    requires Holding(g, base, live, ptrs, nodes) && i < |nodes|
    ensures var ptrs', nodes' := Remove(ptrs, i), Remove(nodes, i);
      forall k :: 0 <= k < |nodes'| ==>
        nodes'[k] !in base && nodes'[k].layer < g.layers && ptrs'[k] == BUDDY_ALLOC_VIRADR + g.Offset(nodes'[k])
  {
    var ptrs', nodes' := Remove(ptrs, i), Remove(nodes, i);
    hide Remove, Geometry.Offset;
    forall k | 0 <= k < |nodes'|
      ensures nodes'[k] !in base && nodes'[k].layer < g.layers && ptrs'[k] == BUDDY_ALLOC_VIRADR + g.Offset(nodes'[k])
    {
      var q := if k < i then k else k + 1;
      assert nodes'[k] == nodes[q] && ptrs'[k] == ptrs[q];
    }
  }

  /** What a run looks at: the live blocks, and those the program holds. */
  datatype RunState = RunState(live: set<Node>, ptrs: seq<nat>, nodes: seq<Node>)

  /** The block was carved from the maximal free block `f`. */
  ghost predicate Carved(g: Geometry, k: nat, f: Node, s: RunState, t: RunState)
    requires k < g.layers
  {
    && Chosen(s.live, g.layers, k, f) && Leftmost(f, k) !in s.live
    && t == RunState(s.live + {Leftmost(f, k)}, s.ptrs + [BUDDY_ALLOC_VIRADR + g.Offset(Leftmost(f, k))], s.nodes + [Leftmost(f, k)])
  }

  /** A request is refused exactly if no block is free; otherwise it gets the chosen one. */
  ghost predicate Took(g: Geometry, size: nat, s: RunState, t: RunState)
    requires g.Valid()
  {
    if size > g.maxBlock || NoFreeBlock(s.live, g.layers, FitLayer(g, size)) then t == s
    else exists f :: Carved(g, FitLayer(g, size), f, s, t)
  }

  ghost predicate Gave(i: nat, s: RunState, t: RunState) {
    if i < |s.ptrs| == |s.nodes| then t == RunState(s.live - {s.nodes[i]}, Remove(s.ptrs, i), Remove(s.nodes, i)) else t == s
  }

  ghost predicate Stepped(g: Geometry, step: Step, s: RunState, t: RunState)
    requires g.Valid()
  {
    match step
    case Take(size) => Took(g, size, s, t)
    case Give(i) => Gave(i, s, t)
  }

  /** Each state follows from the one before it by its step. */
  ghost predicate IsTrace(g: Geometry, steps: seq<Step>, trace: seq<RunState>)
    requires g.Valid()
  {
    && 0 < |trace| <= |steps| + 1
    && forall n :: 0 <= n < |trace| - 1 ==> Stepped(g, steps[n], trace[n], trace[n + 1])
  }

  lemma TraceGrows(g: Geometry, steps: seq<Step>, trace: seq<RunState>, t: RunState)
    requires g.Valid() && IsTrace(g, steps, trace) && |trace| <= |steps|
    requires Stepped(g, steps[|trace| - 1], trace[|trace| - 1], t)
    ensures IsTrace(g, steps, trace + [t])
  {
    hide Stepped;
  }

  method RunTake(b: BuddyAllocator, size: nat, ghost base: set<Node>, ptrs: seq<nat>, ghost nodes: seq<Node>)
    returns (ptrs': seq<nat>, ghost nodes': seq<Node>)
    requires b.Valid() && Holding(b.geometry, base, b.live, ptrs, nodes)
    modifies b.block, b.pageTables, b`live
    ensures b.Valid() && Holding(b.geometry, base, b.live, ptrs', nodes')
    ensures Took(b.geometry, size, RunState(old(b.live), ptrs, nodes), RunState(b.live, ptrs', nodes'))
  {
    hide MarkAt, Mapped, Above, Represents, BlockRemapped, NoFreeBlock, MaximalFree, Shl, Holding, Separate, FitLayer,
      Leftmost;
    ghost var live := b.live;
    var ptr, blockSize;
    ghost var f;
    ptr, blockSize, f := b.Alloc(size);
    if ptr == 0 {
      return ptrs, nodes;
    }
    ghost var r := Leftmost(f, FitLayer(b.geometry, size));
    HoldingMore(b.geometry, base, live, ptrs, nodes, ptr, r);
    ptrs', nodes' := ptrs + [ptr], nodes + [r];
    assert Carved(b.geometry, FitLayer(b.geometry, size), f, RunState(live, ptrs, nodes), RunState(b.live, ptrs', nodes'));
  }

  method RunGive(b: BuddyAllocator, i: nat, ghost base: set<Node>, ptrs: seq<nat>, ghost nodes: seq<Node>)
    returns (ptrs': seq<nat>, ghost nodes': seq<Node>)
    requires b.Valid() && base != {} && Holding(b.geometry, base, b.live, ptrs, nodes) && i < |ptrs|
    modifies b.block, b.pageTables, b`live
    ensures b.Valid() && Holding(b.geometry, base, b.live, ptrs', nodes')
    ensures ptrs' == Remove(ptrs, i) && |nodes'| == |ptrs'|
    ensures Gave(i, RunState(old(b.live), ptrs, nodes), RunState(b.live, ptrs', nodes'))
  {
    ghost var other :| other in base;
    assert other in b.live && other != nodes[i] && nodes[i] in b.live;
    assert ptrs[i] == BUDDY_ALLOC_VIRADR + b.geometry.Offset(nodes[i]);
    HoldingLess(b.geometry, base, b.live, ptrs, nodes, i);
    hide MarkAt, Mapped, Above, Represents, BlockRemapped, MaximalFree, Shl, Holding, Separate;
    var left;
    ghost var f;
    left, f := b.Free(ptrs[i], nodes[i]);
    ptrs', nodes' := Remove(ptrs, i), Remove(nodes, i);
  }

  /**
    Any run of allocations and releases, in any order, keeps the allocator's invariant; `trace` has the state
    before each step and the last one.
   */
  method Run(b: BuddyAllocator, steps: seq<Step>)
    returns (ptrs: seq<nat>, ghost nodes: seq<Node>, ghost trace: seq<RunState>)
    requires b.Valid() && b.live != {}
    modifies b.block, b.pageTables, b`live
    ensures b.Valid() && Holding(b.geometry, old(b.live), b.live, ptrs, nodes)
    ensures b.geometry.Valid() && |trace| == |steps| + 1 && IsTrace(b.geometry, steps, trace)
    ensures trace[0] == RunState(old(b.live), [], []) && trace[|steps|] == RunState(b.live, ptrs, nodes)
  {
    GeometryOf(b);
    hide Holding, BuddyAllocator.Valid, Geometry.Valid, IsTrace, Took, Gave;
    ghost var base := b.live;
    ptrs, nodes, trace := [], [], [RunState(b.live, [], [])];
    NothingHeld(b.geometry, base);
    TraceStarts(b.geometry, steps, trace[0]);
    for n := 0 to |steps|
      invariant b.Valid() && Holding(b.geometry, base, b.live, ptrs, nodes)
      invariant |trace| == n + 1 && IsTrace(b.geometry, steps, trace)
      invariant trace[0] == RunState(base, [], []) && trace[n] == RunState(b.live, ptrs, nodes)
    {
      match steps[n] {
        case Take(size) =>
          ptrs, nodes := RunTake(b, size, base, ptrs, nodes);
        case Give(i) =>
          if i < |ptrs| {
            ptrs, nodes := RunGive(b, i, base, ptrs, nodes);
          } else {
            NothingGiven(i, trace[n]);
          }
      }
      TraceGrows(b.geometry, steps, trace, RunState(b.live, ptrs, nodes));
      trace := trace + [RunState(b.live, ptrs, nodes)];
    }
  }

  lemma GeometryOf(b: BuddyAllocator)
    requires b.Valid()
    ensures b.geometry.Valid()
  {
  }

  lemma TraceStarts(g: Geometry, steps: seq<Step>, s: RunState)
    requires g.Valid()
    ensures IsTrace(g, steps, [s])
  {
  }

  lemma NothingGiven(i: nat, s: RunState)
    requires i >= |s.ptrs|
    ensures Gave(i, s, s)
  {
  }

  lemma NothingHeld(g: Geometry, base: set<Node>)
    ensures Holding(g, base, base, [], [])
  {
  }

  /** The blocks a program holds share no byte with one another or with the other live blocks. */
  lemma HeldApart(g: Geometry, base: set<Node>, live: set<Node>, ptrs: seq<nat>, nodes: seq<Node>, i: nat, m: Node)
    requires g.Valid() && Separate(live, g.layers) && Holding(g, base, live, ptrs, nodes)
    requires i < |nodes| && m in live && m != nodes[i]
    ensures m.layer < g.layers && BUDDY_ALLOC_VIRADR <= ptrs[i]
    ensures ptrs[i] + g.BlockSize(nodes[i].layer) <= BUDDY_ALLOC_VIRADR + g.maxBlock
    ensures BUDDY_ALLOC_VIRADR + g.End(m) <= ptrs[i] || ptrs[i] + g.BlockSize(nodes[i].layer) <= BUDDY_ALLOC_VIRADR + g.Offset(m)
  {
    var n := nodes[i];
    assert n in live;
    SpanInArena(n, g);
    if n.layer <= m.layer {
      DisjointSpans(n, m, g);
    } else {
      DisjointSpans(m, n, g);
    }
  }

  /** After any run, releasing what is still held restores the bitmap bit for bit. */
  method RunAndRelease(b: BuddyAllocator, steps: seq<Step>)
    returns (ptrs: seq<nat>, ghost nodes: seq<Node>, ghost trace: seq<RunState>)
    requires b.Valid() && b.live != {}
    modifies b.block, b.pageTables, b`live
    ensures b.geometry.Valid() && |trace| == |steps| + 1 && IsTrace(b.geometry, steps, trace)
    ensures trace[0] == RunState(old(b.live), [], [])
    ensures trace[|steps|].ptrs == ptrs && trace[|steps|].nodes == nodes
    ensures b.Valid() && b.live == old(b.live) && b.block[..] == old(b.block[..])
  {
    hide Holding, BuddyAllocator.Valid, IsTrace;
    ghost var base, before := b.live, b.block[..];
    BitmapOf(b);
    GeometryOf(b);
    ptrs, nodes, trace := Run(b, steps);
    var left := ptrs;
    ghost var leftNodes := nodes;
    while |left| > 0
      invariant b.Valid() && Holding(b.geometry, base, b.live, left, leftNodes)
    {
      left, leftNodes := RunGive(b, 0, base, left, leftNodes);
    }
    NoneHeld(b.geometry, base, b.live, left, leftNodes);
    BitmapOf(b);
    BitmapDeterminedByLive(before, b.block[..], base, b.geometry.layers);
  }

  lemma BitmapOf(b: BuddyAllocator)
    requires b.Valid()
    ensures Represents(b.block[..], b.live, b.geometry.layers)
  {
  }

  lemma NoneHeld(g: Geometry, base: set<Node>, live: set<Node>, ptrs: seq<nat>, nodes: seq<Node>)
    requires Holding(g, base, live, ptrs, nodes) && |ptrs| == 0
    ensures live == base
  {
  }
}
