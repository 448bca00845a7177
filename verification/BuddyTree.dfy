/**
  The binary tree behind the buddy allocator, and what its marks and free blocks mean
  in terms of the set of live blocks. Nothing here knows about the bitmap.
 */
module BuddyTree {
  import opened Bitmap

  /** Node `idx` of a layer; layer 0 is the root, layer `k` has 2^k nodes. */
  datatype Node = Node(layer: nat, idx: nat)

  predicate InTree(n: Node, layers: nat) {
    n.layer < layers && n.idx < Pow2(n.layer)
  }

  function Parent(n: Node): Node
    requires n.layer > 0
  {
    Node(n.layer - 1, n.idx / 2)
  }

  function Buddy(n: Node): Node {
    Node(n.layer, if n.idx % 2 == 0 then n.idx + 1 else n.idx - 1)
  }

  /** `a` is an ancestor of `n`, or `n` itself. */
  predicate Above(a: Node, n: Node)
    decreases n.layer
  {
    a == n || (n.layer > 0 && Above(a, Parent(n)))
  }

  // ---- the order ----

  lemma {:induction false} AboveLayer(a: Node, n: Node)
    requires Above(a, n)
    ensures a.layer <= n.layer
    ensures a.layer == n.layer ==> a == n
    decreases n.layer
  {
    if a != n {
      AboveLayer(a, Parent(n));
    }
  }

  lemma {:induction false} AboveTrans(a: Node, b: Node, c: Node)
    requires Above(a, b) && Above(b, c)
    ensures Above(a, c)
    decreases c.layer
  {
    if b != c {
      AboveTrans(a, b, Parent(c));
    }
  }

  /** Two ancestors of one node lie on one path. */
  lemma {:induction false} AboveChain(a: Node, b: Node, n: Node)
    requires Above(a, n) && Above(b, n) && a.layer <= b.layer
    ensures Above(a, b)
    decreases n.layer
  {
    if b == n {
    } else if a == n {
      AboveLayer(b, n);
    } else {
      AboveChain(a, b, Parent(n));
    }
  }

  lemma {:induction false} RootAbove(n: Node, layers: nat)
    requires InTree(n, layers)
    ensures Above(Node(0, 0), n)
    decreases n.layer
  {
    if n.layer > 0 {
      RootAbove(Parent(n), layers);
    }
  }

  /** A node strictly below the parent of `n` is below `n` or below its buddy. */
  lemma {:induction false} BelowParent(n: Node, m: Node)
    requires n.layer > 0 && Above(Parent(n), m) && m != Parent(n)
    ensures Above(n, m) || Above(Buddy(n), m)
    decreases m.layer
  {
    if Parent(m) == Parent(n) {
      AboveLayer(Parent(n), m);
    } else {
      AboveLayer(Parent(n), m);
      BelowParent(n, Parent(m));
    }
  }

  lemma AboveSelfParent(n: Node)
    requires n.layer > 0
    ensures Above(Parent(n), n)
  {
    assert Above(Parent(n), Parent(n));
  }

  lemma BuddyFacts(n: Node, layers: nat)
    requires InTree(n, layers) && n.layer > 0
    ensures InTree(Buddy(n), layers) && Buddy(n) != n && Buddy(Buddy(n)) == n
    ensures InTree(Parent(n), layers) && Parent(Buddy(n)) == Parent(n)
    ensures Above(Parent(n), n) && !Above(n, Buddy(n))
  {
    PairInTree(n, layers);
    BuddyTwice(n);
    AboveSelfParent(n);
    hide Pow2, Above;
    NotAboveBuddy(n);
  }

  lemma PairInTree(n: Node, layers: nat)
    requires InTree(n, layers) && n.layer > 0
    ensures InTree(Buddy(n), layers) && Buddy(n) != n && InTree(Parent(n), layers) && Parent(Buddy(n)) == Parent(n)
  {
    var k := Pow2(n.layer - 1);
    assert Pow2(n.layer) == 2 * k;
    hide Pow2;
    PairArithmetic(n.idx, k);
  }

  lemma BuddyTwice(n: Node)
    ensures Buddy(Buddy(n)) == n
  {
    if n.idx % 2 == 0 {
      assert (n.idx + 1) % 2 == 1;
    } else {
      assert (n.idx - 1) % 2 == 0;
    }
  }

  lemma NotAboveBuddy(n: Node)
    requires Buddy(n) != n
    ensures !Above(n, Buddy(n))
  {
    if Above(n, Buddy(n)) {
      AboveLayer(n, Buddy(n));
    }
  }

  lemma PairArithmetic(i: nat, k: nat)
    requires i < 2 * k
    ensures i / 2 < k
    ensures i % 2 == 0 ==> i + 1 < 2 * k && (i + 1) / 2 == i / 2 && (i + 1) % 2 == 1
    ensures i % 2 == 1 ==> i >= 1 && (i - 1) / 2 == i / 2 && (i - 1) % 2 == 0
  {
  }

  // ---- marks, free blocks ----

  /** Some live block is `n` or lies below it. */
  ghost predicate Marked(live: set<Node>, n: Node) {
    exists m :: m in live && Above(n, m)
  }

  /** `n` is, or lies inside, a live block. */
  ghost predicate Covered(live: set<Node>, n: Node) {
    exists m :: m in live && Above(m, n)
  }

  /** The block of `n` shares no byte with a live block. */
  ghost predicate Free(live: set<Node>, n: Node) {
    !Marked(live, n) && !Covered(live, n)
  }

  /** Free, and not part of a larger free block. */
  ghost predicate MaximalFree(live: set<Node>, n: Node) {
    Free(live, n) && (n.layer > 0 ==> !Free(live, Parent(n)))
  }

  /** Live blocks are tree nodes, and no live block lies inside another. */
  ghost predicate Separate(live: set<Node>, layers: nat) {
    && (forall n :: n in live ==> InTree(n, layers))
    && (forall a, b :: a in live && b in live && Above(a, b) ==> a == b)
  }

  lemma MarkedUp(live: set<Node>, a: Node, n: Node)
    requires Above(a, n) && Marked(live, n)
    ensures Marked(live, a)
  {
    var m :| m in live && Above(n, m);
    AboveTrans(a, n, m);
  }

  lemma CoveredDown(live: set<Node>, a: Node, n: Node)
    requires Above(a, n) && Covered(live, a)
    ensures Covered(live, n)
  {
    var m :| m in live && Above(m, a);
    AboveTrans(m, a, n);
  }

  /** Everything inside a free block is free. */
  lemma FreeDown(live: set<Node>, a: Node, n: Node)
    requires Above(a, n) && Free(live, a)
    ensures Free(live, n)
  {
    if Marked(live, n) {
      MarkedUp(live, a, n);
    }
    if Covered(live, n) {
      var m :| m in live && Above(m, n);
      if m.layer <= a.layer {
        AboveChain(m, a, n);
      } else {
        AboveChain(a, m, n);
      }
    }
  }

  /** A marked parent of an unmarked node has its mark from the buddy, unless it is itself live. */
  lemma MarkFromBuddy(live: set<Node>, n: Node)
    requires n.layer > 0 && Marked(live, Parent(n)) && !Marked(live, n)
    ensures Parent(n) in live || Marked(live, Buddy(n))
  {
    var m :| m in live && Above(Parent(n), m);
    if m != Parent(n) {
      BelowParent(n, m);
    }
  }

  /** What the search in `buddy_alloc` tests: parent occupied, exactly one of the buddies occupied. */
  lemma MaximalFreeByMarks(live: set<Node>, layers: nat, n: Node)
    requires Separate(live, layers) && InTree(n, layers) && n.layer > 0
    ensures MaximalFree(live, n) <==>
            Marked(live, Parent(n)) && !Marked(live, n) && Marked(live, Buddy(n))
  {
    BuddyFacts(n, layers);
    if MaximalFree(live, n) {
      if Covered(live, Parent(n)) {
        CoveredDown(live, Parent(n), n);
      }
      MarkFromBuddy(live, n);
    }
    if Marked(live, Parent(n)) && !Marked(live, n) && Marked(live, Buddy(n)) && Covered(live, n) {
      var m :| m in live && Above(m, n);
      var b :| b in live && Above(Buddy(n), b);
      AboveLayer(m, n);
      assert m != n by { assert Above(n, n); }
      AboveTrans(m, Parent(n), Buddy(n));
      AboveTrans(m, Buddy(n), b);
      assert m == b;
      AboveLayer(Buddy(n), m);
      assert false;
    }
  }

  /** The maximal free block around a free block. */
  lemma {:induction false} MaximalFreeAround(live: set<Node>, layers: nat, n: Node) returns (f: Node)
    requires Free(live, n) && InTree(n, layers)
    ensures MaximalFree(live, f) && Above(f, n) && InTree(f, layers)
    decreases n.layer
  {
    if n.layer > 0 && Free(live, Parent(n)) {
      BuddyFacts(n, layers);
      f := MaximalFreeAround(live, layers, Parent(n));
      AboveTrans(f, Parent(n), n);
    } else {
      f := n;
    }
  }

  // ---- carving a block out of a free block ----

  /** The first node of layer `k` inside `n`. */
  function Leftmost(n: Node, k: nat): (r: Node)
    requires n.layer <= k
    ensures r.layer == k
    decreases k - n.layer
  {
    if n.layer == k then n else Leftmost(Node(n.layer + 1, 2 * n.idx), k)
  }

  lemma {:induction false} LeftmostBelow(n: Node, k: nat, layers: nat)
    requires n.layer <= k < layers && InTree(n, layers)
    ensures Above(n, Leftmost(n, k)) && InTree(Leftmost(n, k), layers)
    decreases k - n.layer
  {
    if n.layer < k {
      var c := Node(n.layer + 1, 2 * n.idx);
      assert Pow2(c.layer) == 2 * Pow2(n.layer);
      LeftmostBelow(c, k, layers);
      assert Parent(c) == n && Above(n, c);
      AboveTrans(n, c, Leftmost(n, k));
    }
  }

  /** Adding a block found free keeps live blocks separate. */
  lemma AddSeparate(live: set<Node>, layers: nat, r: Node)
    requires Separate(live, layers) && InTree(r, layers) && Free(live, r)
    ensures Separate(live + {r}, layers) && r !in live
  {
    assert r !in live by { assert Above(r, r); }
    forall a, b | a in live + {r} && b in live + {r} && Above(a, b)
      ensures a == b
    {
    }
  }

  lemma MarkedAdd(live: set<Node>, r: Node, x: Node)
    ensures Marked(live + {r}, x) <==> Marked(live, x) || Above(x, r)
  {
    if Marked(live, x) {
      var m :| m in live && Above(x, m);
      assert m in live + {r};
    }
    if Above(x, r) {
      assert r in live + {r};
    }
  }

  /** Ancestors of a maximal free block are marked already. */
  lemma AboveMaximalMarked(live: set<Node>, layers: nat, f: Node, x: Node)
    requires Separate(live, layers) && InTree(f, layers) && MaximalFree(live, f)
    requires Above(x, f) && x != f
    ensures Marked(live, x)
  {
    MaximalFreeByMarks(live, layers, f);
    MarkedUp(live, x, Parent(f));
  }

  // ---- removing a block ----

  lemma RemoveSeparate(live: set<Node>, layers: nat, n: Node)
    requires Separate(live, layers) && n in live
    ensures Separate(live - {n}, layers)
    ensures Free(live - {n}, n)
  {
  }

  lemma MarkedRemove(live: set<Node>, layers: nat, n: Node, x: Node)
    requires Separate(live, layers) && n in live
    ensures Marked(live, x) <==> Marked(live - {n}, x) || Above(x, n)
  {
    assert live == (live - {n}) + {n};
    MarkedAdd(live - {n}, n, x);
  }
}
