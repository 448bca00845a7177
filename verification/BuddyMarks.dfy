/** The bitmap of the buddy allocator: one bit per tree node, packed into bytes. */
module BuddyMarks {
  import opened Bitmap
  import opened BuddyTree
  import opened BuddyGeometry

  const BUDDY_ARRAY_SIZE: nat := 2048

  /** Number of the first bit of each layer, as the constant table of the program has it. */
  const LAYER_BASE: seq<nat> :=
    [0, 1, 3, 7, 15, 31, 63, 127, 255, 511, 1023, 2047, 4095, 8191, 16383, 32767]

  lemma LayerBase(layer: nat)
    requires layer < 16
    ensures LAYER_BASE[layer] == Pow2(layer) - 1
  {
    assert Pow2(0) == 1 && Pow2(1) == 2 && Pow2(2) == 4 && Pow2(3) == 8;
    assert Pow2(4) == 16 && Pow2(5) == 32 && Pow2(6) == 64 && Pow2(7) == 128;
    assert Pow2(8) == 256 && Pow2(9) == 512 && Pow2(10) == 1024 && Pow2(11) == 2048;
    assert Pow2(12) == 4096 && Pow2(13) == 8192 && Pow2(14) == 16384 && Pow2(15) == 32768;
    hide Pow2;
  }

  lemma BitsOfArray()
    ensures Pow2(BUDDY_LAYERS) == 8 * BUDDY_ARRAY_SIZE
  {
    LayerBase(BUDDY_LAYERS);
    hide Pow2;
  }

  function BitIndex(n: Node): nat {
    Pow2(n.layer) - 1 + n.idx
  }

  lemma BitIndexBound(n: Node, layers: nat)
    requires InTree(n, layers)
    ensures BitIndex(n) < Pow2(layers) - 1
    ensures layers <= BUDDY_LAYERS ==> BitIndex(n) < 8 * BUDDY_ARRAY_SIZE - 1
  {
    assert BitIndex(n) < Pow2(n.layer + 1) - 1;
    Pow2Monotone(n.layer + 1, layers);
    if layers <= BUDDY_LAYERS {
      Pow2Monotone(layers, BUDDY_LAYERS);
      BitsOfArray();
    }
  }

  lemma TableIndex(n: Node, layers: nat)
    requires InTree(n, layers) && layers <= BUDDY_LAYERS
    ensures LAYER_BASE[n.layer] + n.idx == BitIndex(n) < 8 * BUDDY_ARRAY_SIZE
  {
    BitIndexBound(n, layers);
    LayerBase(n.layer);
  }

  /** The packing is injective: different nodes never share a bit. */
  lemma BitIndexInjective(a: Node, b: Node, layers: nat)
    requires InTree(a, layers) && InTree(b, layers) && a != b
    ensures BitIndex(a) != BitIndex(b)
  {
    if a.layer < b.layer {
      BitIndexBound(a, a.layer + 1);
      Pow2Monotone(a.layer + 1, b.layer);
    } else if b.layer < a.layer {
      BitIndexBound(b, b.layer + 1);
      Pow2Monotone(b.layer + 1, a.layer);
    }
  }

  /** ... and it wastes nothing: every bit below 2^layers - 1 belongs to a node. */
  lemma {:induction false} BitIndexOnto(i: nat, layers: nat) returns (n: Node)
    requires i < Pow2(layers) - 1
    ensures InTree(n, layers) && BitIndex(n) == i
  {
    if i < Pow2(layers - 1) - 1 {
      n := BitIndexOnto(i, layers - 1);
    } else {
      n := Node(layers - 1, i - (Pow2(layers - 1) - 1));
    }
  }

  predicate Shape(s: seq<bv8>, layers: nat) {
    |s| == BUDDY_ARRAY_SIZE && 2 <= layers <= BUDDY_LAYERS
  }

  ghost predicate MarkAt(s: seq<bv8>, layers: nat, n: Node)
    requires Shape(s, layers) && InTree(n, layers)
  {
    BitIndexBound(n, layers);
    GetBit(s, BitIndex(n))
  }

  ghost predicate TailClear(s: seq<bv8>, layers: nat)
    requires Shape(s, layers)
  {
    forall i: nat :: Pow2(layers) - 1 <= i < 8 * |s| ==> !GetBit(s, i)
  }

  ghost function WithMark(s: seq<bv8>, layers: nat, n: Node, val: bool): (t: seq<bv8>)
    requires Shape(s, layers) && InTree(n, layers)
    ensures Shape(t, layers)
  {
    BitIndexBound(n, layers);
    SetBit(s, BitIndex(n), val)
  }

  lemma WithMarkRead(s: seq<bv8>, layers: nat, n: Node, val: bool)
    requires Shape(s, layers) && InTree(n, layers)
    ensures var t := WithMark(s, layers, n, val);
      forall x :: InTree(x, layers) ==> (MarkAt(t, layers, x) <==> if x == n then val else MarkAt(s, layers, x))
    ensures TailClear(s, layers) ==> TailClear(WithMark(s, layers, n, val), layers)
  {
    var t := WithMark(s, layers, n, val);
    BitIndexBound(n, layers);
    forall x | InTree(x, layers)
      ensures MarkAt(t, layers, x) <==> if x == n then val else MarkAt(s, layers, x)
    {
      BitIndexBound(x, layers);
      if x != n {
        BitIndexInjective(x, n, layers);
      }
      SetBitRead(s, BitIndex(n), val, BitIndex(x));
    }
    if TailClear(s, layers) {
      forall i: nat | Pow2(layers) - 1 <= i < 8 * |t|
        ensures !GetBit(t, i)
      {
        SetBitRead(s, BitIndex(n), val, i);
      }
    }
  }

  /** The allocator's invariant: a bit is 1 exactly when its node is an ancestor-or-self of a live block. */
  ghost predicate Represents(s: seq<bv8>, live: set<Node>, layers: nat) {
    && Shape(s, layers)
    && (forall x :: InTree(x, layers) ==> (MarkAt(s, layers, x) <==> Marked(live, x)))
    && TailClear(s, layers)
  }

  /** So the bytes of the bitmap depend on the live blocks only, not on the history that led to them. */
  lemma BitmapDeterminedByLive(s: seq<bv8>, t: seq<bv8>, live: set<Node>, layers: nat)
    requires Represents(s, live, layers) && Represents(t, live, layers)
    ensures s == t
  {
    forall i: nat | i < 8 * |s|
      ensures GetBit(s, i) <==> GetBit(t, i)
    {
      if i < Pow2(layers) - 1 {
        var n := BitIndexOnto(i, layers);
        assert MarkAt(s, layers, n) <==> MarkAt(t, layers, n);
      }
    }
    BytesFromBits(s, t);
  }

  /** And conversely the bitmap alone tells which node owns an address: different live sets differ in a bit. */
  lemma BitmapDeterminesMarks(s: seq<bv8>, live: set<Node>, other: set<Node>, layers: nat)
    requires Represents(s, live, layers) && Represents(s, other, layers)
    requires Separate(live, layers) && Separate(other, layers)
    ensures live == other
  {
    LiveFromMarks(s, live, other, layers);
    LiveFromMarks(s, other, live, layers);
  }

  lemma LiveFromMarks(s: seq<bv8>, live: set<Node>, other: set<Node>, layers: nat)
    requires Represents(s, live, layers) && Represents(s, other, layers)
    requires Separate(live, layers) && Separate(other, layers)
    ensures live <= other
  {
    forall n | n in live
      ensures n in other
    {
      assert Above(n, n);
      assert Marked(live, n);
      assert MarkAt(s, layers, n);
      var m :| m in other && Above(n, m);
      assert Above(m, m);
      assert Marked(other, m);
      assert MarkAt(s, layers, m);
      var b :| b in live && Above(m, b);
      AboveTrans(n, m, b);
      AboveLayer(n, m);
      AboveLayer(m, b);
    }
  }
}
