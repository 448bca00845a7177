/** Byte ranges of tree nodes, and the byte counts of live and free blocks. */
module BuddyGeometry {
  import opened Bitmap
  import opened BuddyTree

  const BUDDY_LAYERS: nat := 14
  const PAGE: nat := 4096
  const PAGE_TABLE_ENTRIES: nat := 262144

  /** `v << k`. */
  function Shl(v: nat, k: nat): (r: nat)
    ensures v > 0 ==> r > 0
  {
    if k == 0 then v else 2 * Shl(v, k - 1)
  }

  /** What `buddy_init` leaves in the global variables. */
  datatype Geometry = Geometry(layers: nat, minBlock: nat, maxBlock: nat, start: nat) {
    ghost predicate Valid() {
      && 2 <= layers <= BUDDY_LAYERS
      && minBlock > 0
      && maxBlock == Shl(minBlock, layers - 1)
      && maxBlock <= PAGE * PAGE_TABLE_ENTRIES
      && start % PAGE == 0
      && start + maxBlock <= 0x1_0000_0000
    }

    function BlockSize(layer: nat): nat
      requires layer < layers
    {
      Shl(minBlock, layers - 1 - layer)
    }

    /** Distance of the block of `n` from the start of the arena. */
    function Offset(n: Node): nat
      requires n.layer < layers
    {
      n.idx * BlockSize(n.layer)
    }

    function End(n: Node): nat
      requires n.layer < layers
    {
      Offset(n) + BlockSize(n.layer)
    }
  }

  lemma ParentSpan(n: Node, g: Geometry)
    requires n.layer < g.layers && n.layer > 0
    ensures g.BlockSize(n.layer - 1) == 2 * g.BlockSize(n.layer)
    ensures g.Offset(n) == g.Offset(Parent(n)) + (n.idx % 2) * g.BlockSize(n.layer)
  {
    var w := g.BlockSize(n.layer);
    var q, r := n.idx / 2, n.idx % 2;
    assert n.idx == 2 * q + r;
    assert (2 * q + r) * w == q * (2 * w) + r * w;
  }

  lemma {:induction false} NestedSpan(a: Node, n: Node, g: Geometry)
    requires Above(a, n) && n.layer < g.layers && a.layer < g.layers
    ensures g.Offset(a) <= g.Offset(n)
    ensures g.End(n) <= g.End(a)
    decreases n.layer
  {
    if a != n {
      ParentSpan(n, g);
      NestedSpan(a, Parent(n), g);
      var w := g.BlockSize(n.layer);
      assert n.idx % 2 == 0 || n.idx % 2 == 1;
      assert 0 * w == 0 && 1 * w == w;
    }
  }

  lemma {:induction false} NextMultiple(i: nat, d: nat, w: nat)
    ensures i * w + w <= (i + 1 + d) * w
  {
    if d > 0 {
      NextMultiple(i, d - 1, w);
      assert (i + 1 + d) * w == (i + d) * w + w;
    }
  }

  lemma Multiples(i: nat, j: nat, w: nat)
    requires i != j
    ensures i * w + w <= j * w || j * w + w <= i * w
  {
    if i < j {
      NextMultiple(i, j - i - 1, w);
    } else {
      NextMultiple(j, i - j - 1, w);
    }
  }

  /** Blocks not inside one another share no byte. */
  lemma {:induction false} DisjointSpans(a: Node, n: Node, g: Geometry)
    requires a.layer <= n.layer < g.layers && !Above(a, n)
    ensures g.End(n) <= g.Offset(a)
         || g.End(a) <= g.Offset(n)
    decreases n.layer
  {
    if a.layer == n.layer {
      Multiples(a.idx, n.idx, g.BlockSize(n.layer));
    } else {
      DisjointSpans(a, Parent(n), g);
      AboveSelfParent(n);
      NestedSpan(Parent(n), n, g);
    }
  }

  lemma SpanInArena(n: Node, g: Geometry)
    requires InTree(n, g.layers) && g.Valid()
    ensures g.End(n) <= g.maxBlock
  {
    RootAbove(n, g.layers);
    NestedSpan(Node(0, 0), n, g);
  }

  lemma {:induction false} LeftmostSpan(n: Node, k: nat, g: Geometry)
    requires n.layer <= k < g.layers
    ensures g.Offset(Leftmost(n, k)) == g.Offset(n)
    decreases k - n.layer
  {
    if n.layer < k {
      var c := Node(n.layer + 1, 2 * n.idx);
      ParentSpan(c, g);
      LeftmostSpan(c, k, g);
    }
  }

  lemma {:induction false} LeftmostParent(n: Node, k: nat)
    requires n.layer < k
    ensures Parent(Leftmost(n, k)) == Leftmost(n, k - 1)
    decreases k - n.layer
  {
    var c := Node(n.layer + 1, 2 * n.idx);
    if n.layer + 1 == k {
      assert Leftmost(n, k) == Leftmost(c, k) == c;
    } else {
      LeftmostParent(c, k);
    }
  }

  // ---- conservation of bytes ----

  /** Total width of a set of blocks. */
  ghost function Total(s: set<Node>, g: Geometry): nat
    requires forall n :: n in s ==> n.layer < g.layers
  {
    if s == {} then 0 else
      var n :| n in s;
      g.BlockSize(n.layer) + Total(s - {n}, g)
  }

  lemma {:induction false} TotalTake(s: set<Node>, g: Geometry, n: Node)
    requires (forall n :: n in s ==> n.layer < g.layers) && n in s
    ensures Total(s, g) == g.BlockSize(n.layer) + Total(s - {n}, g)
  {
    var m :| m in s && Total(s, g) == g.BlockSize(m.layer) + Total(s - {m}, g);
    if m != n {
      TotalTake(s - {m}, g, n);
      TotalTake(s - {n}, g, m);
      assert s - {m} - {n} == s - {n} - {m};
    }
  }

  lemma {:induction false} TotalUnion(s: set<Node>, t: set<Node>, g: Geometry)
    requires forall n :: n in s + t ==> n.layer < g.layers
    requires s !! t
    ensures Total(s + t, g) == Total(s, g) + Total(t, g)
    decreases s
  {
    if s == {} {
      assert s + t == t;
    } else {
      var n :| n in s;
      TotalTake(s, g, n);
      TotalTake(s + t, g, n);
      assert s + t - {n} == (s - {n}) + t;
      TotalUnion(s - {n}, t, g);
    }
  }

  ghost function Under(s: set<Node>, a: Node): set<Node> {
    set n | n in s && Above(a, n)
  }

  /** A family of separate blocks that leaves no smallest block of `a` uncovered fills `a` exactly. */
  lemma {:induction false} TilesExactly(s: set<Node>, a: Node, g: Geometry)
    requires Separate(s, g.layers) && InTree(a, g.layers)
    requires forall m :: m in s && Above(m, a) ==> m == a
    requires forall leaf :: InTree(leaf, g.layers) && leaf.layer == g.layers - 1 ==> Covered(s, leaf)
    ensures Total(Under(s, a), g) == g.BlockSize(a.layer)
    decreases g.layers - a.layer
  {
    if a in s {
      assert Above(a, a);
      assert Under(s, a) == {a};
      TotalTake({a}, g, a);
      assert {a} - {a} == {};
    } else if a.layer == g.layers - 1 {
      assert false;
    } else {
      var l, r := Node(a.layer + 1, 2 * a.idx), Node(a.layer + 1, 2 * a.idx + 1);
      assert Pow2(l.layer) == 2 * Pow2(a.layer);
      assert Parent(l) == a && Parent(r) == a && Buddy(l) == r;
      SplitUnder(s, a, l, r);
      NoneAboveChild(s, a, l);
      NoneAboveChild(s, a, r);
      TilesExactly(s, l, g);
      TilesExactly(s, r, g);
      TotalUnion(Under(s, l), Under(s, r), g);
      ParentSpan(l, g);
    }
  }

  lemma SplitUnder(s: set<Node>, a: Node, l: Node, r: Node)
    requires l.layer > 0 && r.layer == l.layer && Parent(l) == a && Parent(r) == a && Buddy(l) == r
    requires a !in s
    ensures Under(s, a) == Under(s, l) + Under(s, r)
    ensures Under(s, l) !! Under(s, r)
  {
    AboveSelfParent(l);
    AboveSelfParent(r);
    forall n | n in s
      ensures Above(a, n) <==> Above(l, n) || Above(r, n)
      ensures !(Above(l, n) && Above(r, n))
    {
      if Above(a, n) {
        BelowParent(l, n);
      }
      if Above(l, n) {
        AboveTrans(a, l, n);
      }
      if Above(r, n) {
        AboveTrans(a, r, n);
      }
      if Above(l, n) && Above(r, n) {
        AboveChain(l, r, n);
        AboveLayer(l, r);
      }
    }
  }

  lemma NoneAboveChild(s: set<Node>, a: Node, c: Node)
    requires c.layer > 0 && Parent(c) == a && a !in s
    requires forall m :: m in s && Above(m, a) ==> m == a
    ensures forall m :: m in s && Above(m, c) ==> m == c
  {
  }

  ghost function Nodes(layers: nat): (s: set<Node>)
    ensures forall n :: n in s <==> InTree(n, layers)
  {
    var s := set k: nat, i: nat | k < layers && i < Pow2(layers) && i < Pow2(k) :: Node(k, i);
    assert forall n :: InTree(n, layers) ==> n in s by {
      forall n | InTree(n, layers)
        ensures n in s
      {
        Pow2Monotone(n.layer, layers);
        assert n == Node(n.layer, n.idx);
      }
    }
    s
  }

  ghost function MaximalFreeBlocks(live: set<Node>, layers: nat): set<Node> {
    set n | n in Nodes(layers) && MaximalFree(live, n)
  }

  /** Live blocks and maximal free blocks together are separate ... */
  lemma LiveAndFreeSeparate(live: set<Node>, layers: nat)
    requires Separate(live, layers)
    ensures Separate(live + MaximalFreeBlocks(live, layers), layers)
    ensures live !! MaximalFreeBlocks(live, layers)
  {
    var free := MaximalFreeBlocks(live, layers);
    forall a, b | a in live + free && b in live + free && Above(a, b)
      ensures a == b
    {
      if a in free && b in free && a != b {
        AboveSelfParent(b);
        FreeDown(live, a, Parent(b));
      }
    }
    forall n | n in live
      ensures n !in free
    {
      assert Above(n, n);
    }
  }

  lemma LeafCovered(live: set<Node>, layers: nat, leaf: Node)
    requires Separate(live, layers) && InTree(leaf, layers) && leaf.layer == layers - 1
    ensures Covered(live + MaximalFreeBlocks(live, layers), leaf)
  {
    hide MaximalFree, Above;
    if Free(live, leaf) {
      var f := MaximalFreeAround(live, layers, leaf);
      assert f in MaximalFreeBlocks(live, layers);
    } else if Marked(live, leaf) {
      var m :| m in live && Above(leaf, m);
      AboveLayer(leaf, m);
    }
  }

  lemma AllUnderRoot(s: set<Node>, layers: nat)
    requires Separate(s, layers)
    ensures Under(s, Node(0, 0)) == s
    ensures forall m :: m in s && Above(m, Node(0, 0)) ==> m == Node(0, 0)
  {
    hide Above;
    forall n | n in s
      ensures Above(Node(0, 0), n) && (Above(n, Node(0, 0)) ==> n == Node(0, 0))
    {
      RootAbove(n, layers);
      if Above(n, Node(0, 0)) {
        AboveLayer(n, Node(0, 0));
      }
    }
  }

  /** A separate family that covers every smallest block fills the arena. */
  lemma FillsArena(s: set<Node>, g: Geometry)
    requires g.Valid() && Separate(s, g.layers)
    requires forall leaf :: InTree(leaf, g.layers) && leaf.layer == g.layers - 1 ==> Covered(s, leaf)
    ensures (forall n :: n in s ==> n.layer < g.layers) && Total(s, g) == g.maxBlock
  {
    hide Above, Covered, Under, Total, Separate;
    InTreeLayers(s, g.layers);
    AllUnderRoot(s, g.layers);
    TilesExactly(s, Node(0, 0), g);
  }

  lemma InTreeLayers(s: set<Node>, layers: nat)
    requires Separate(s, layers)
    ensures forall n :: n in s ==> n.layer < layers
  {
  }

  /** ... so their sizes always add up to the whole arena. */
  lemma BytesConserved(live: set<Node>, g: Geometry)
    requires Separate(live, g.layers) && g.Valid()
    ensures Total(live, g) + Total(MaximalFreeBlocks(live, g.layers), g) == g.maxBlock
  {
    hide *;
    var free := MaximalFreeBlocks(live, g.layers);
    LiveAndFreeSeparate(live, g.layers);
    forall leaf | InTree(leaf, g.layers) && leaf.layer == g.layers - 1
      ensures Covered(live + free, leaf)
    {
      LeafCovered(live, g.layers, leaf);
    }
    FillsArena(live + free, g);
    TotalUnion(live, free, g);
  }
}
