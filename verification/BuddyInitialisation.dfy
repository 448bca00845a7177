/** `buddy_init`: the geometry of the arena, computed from the memory map. */
module BuddyInitialisation {
  import opened Basics
  import opened Bitmap
  import opened BuddyGeometry

  /** An entry of the firmware's memory map; lengths and addresses have 64 bits. */
  datatype MemoryBlock = MemoryBlock(begin: nat, length: nat, usable: bool)

  /** A 64-bit length stored in a 32-bit signed integer. */
  function Int32(x: nat): (r: int)
    ensures -0x8000_0000 <= r < 0x8000_0000 && (x - r) % 0x1_0000_0000 == 0
  {
    var low := x % 0x1_0000_0000;
    if low < 0x8000_0000 then low else low - 0x1_0000_0000
  }

  function Shr(v: nat, k: nat): nat {
    if k == 0 then v else Shr(v / 2, k - 1)
  }

  function Min(a: int, b: int): int {
    if a < b then a else b
  }

  function Max(a: int, b: int): int {
    if a < b then b else a
  }

  /** The usable block of greatest (truncated) length, the first of equals. */
  ghost predicate Largest(blocks: seq<MemoryBlock>, i: nat) {
    && i < |blocks| && blocks[i].usable && Int32(blocks[i].length) > 0
    && (forall j :: 0 <= j < |blocks| && blocks[j].usable ==> Int32(blocks[j].length) <= Int32(blocks[i].length))
    && (forall j :: 0 <= j < i && blocks[j].usable ==> Int32(blocks[j].length) < Int32(blocks[i].length))
  }

  method FindLargest(blocks: seq<MemoryBlock>) returns (maxSize: nat, begin: Option<nat>)
    ensures begin.None? <==> forall j :: 0 <= j < |blocks| && blocks[j].usable ==> Int32(blocks[j].length) <= 0
    ensures begin.Some? ==> Largest(blocks, begin.value) && maxSize == Int32(blocks[begin.value].length)
  {
    maxSize, begin := 0, None;
    for i := 0 to |blocks|
      invariant begin.None? ==> maxSize == 0
      invariant begin.Some? ==>
        && begin.value < i && blocks[begin.value].usable && maxSize == Int32(blocks[begin.value].length) > 0
        && forall j :: 0 <= j < begin.value && blocks[j].usable ==> Int32(blocks[j].length) < maxSize
      invariant forall j :: 0 <= j < i && blocks[j].usable ==> Int32(blocks[j].length) <= maxSize
    {
      if blocks[i].usable {
        var size := Int32(blocks[i].length);
        if size > maxSize {
          maxSize, begin := size, Some(i);
        }
      }
    }
  }

  /** Number of significant bits, by shifting right until nothing is left. */
  method BitLength(v: nat) returns (layers: nat)
    ensures v == 0 ==> layers == 0
    ensures v > 0 ==> layers > 0 && Pow2(layers - 1) <= v < Pow2(layers)
  {
    hide Halved, Pow2;
    var m := v;
    layers := 0;
    HalvedOnce(v);
    while m > 0
      invariant Halved(v, m, layers)
      invariant v == 0 ==> layers == 0
      invariant v > 0 && m == 0 ==> layers > 0 && Pow2(layers - 1) <= v < Pow2(layers)
    {
      HalvingStep(v, m, layers);
      m := m / 2;
      layers := layers + 1;
    }
  }

  /** `m` is `v` shifted right by `k`. */
  ghost predicate Halved(v: nat, m: nat, k: nat) {
    m * Pow2(k) <= v < (m + 1) * Pow2(k)
  }

  lemma HalvedOnce(v: nat)
    ensures Halved(v, v, 0)
  {
  }

  lemma HalvingStep(v: nat, m: nat, k: nat)
    requires m > 0 && Halved(v, m, k)
    ensures v > 0 && Halved(v, m / 2, k + 1)
    ensures m / 2 == 0 ==> Pow2(k) <= v < Pow2(k + 1)
  {
    var q, p := m / 2, Pow2(k);
    assert Pow2(k + 1) == 2 * p;
    hide Pow2;
    if m % 2 == 0 {
      EvenSpan(q, p, v);
    } else {
      OddSpan(q, p, v);
    }
  }

  lemma EvenSpan(q: nat, p: nat, v: nat)
    requires q > 0 && p > 0 && 2 * q * p <= v < (2 * q + 1) * p
    ensures 0 < v && q * (2 * p) <= v < (q + 1) * (2 * p)
  {
    assert q * (2 * p) == 2 * q * p && (2 * q + 1) * p == 2 * q * p + p && (q + 1) * (2 * p) == q * (2 * p) + 2 * p;
    assert q * p >= p by { AtLeast(q, p); }
  }

  lemma OddSpan(q: nat, p: nat, v: nat)
    requires p > 0 && (2 * q + 1) * p <= v < (2 * q + 2) * p
    ensures 0 < v && q * (2 * p) <= v < (q + 1) * (2 * p)
    ensures q == 0 ==> p <= v < 2 * p
  {
    var x := q * p;
    assert (2 * q + 1) * p == 2 * x + p && (2 * q + 2) * p == 2 * x + 2 * p;
    assert q * (2 * p) == 2 * x && (q + 1) * (2 * p) == 2 * x + 2 * p;
  }

  lemma AtLeast(q: nat, p: nat)
    requires q > 0
    ensures q * p >= p
  {
    assert q * p == (q - 1) * p + p;
  }

  /** The geometry of the arena carved from the end of a block whose truncated length is `size`. */
  function GeometryFor(b: MemoryBlock, layers: nat): Geometry {
    var maxBlock := Shr(Pow2(layers), 1);
    var start := (b.begin + b.length + 1 - maxBlock) % 0x1_0000_0000;
    Geometry(Min(layers, BUDDY_LAYERS), Shr(maxBlock, Max(0, Min(layers - 2, BUDDY_LAYERS - 1))), maxBlock, start / PAGE * PAGE)
  }

  method BuddyInit(blocks: seq<MemoryBlock>) returns (g: Option<Geometry>, ghost chosen: nat)
    ensures g.None? <==> forall j :: 0 <= j < |blocks| && blocks[j].usable ==> Int32(blocks[j].length) <= 0
    ensures g.Some? ==> Largest(blocks, chosen)
    ensures g.Some? ==> exists layers :: BitsOf(Int32(blocks[chosen].length) / 2, layers) && g.value == GeometryFor(blocks[chosen], layers)
  {
    var maxSize, begin := FindLargest(blocks);
    if begin.None? {
      return None, 0;
    }
    chosen := begin.value;
    var layers := BitLength(maxSize / 2);
    assert BitsOf(maxSize / 2, layers);
    g := Some(GeometryFor(blocks[begin.value], layers));
  }

  ghost predicate BitsOf(v: int, layers: nat) {
    if v <= 0 then layers == 0 else layers > 0 && Pow2(layers - 1) <= v < Pow2(layers)
  }

  lemma {:induction false} ShlOfShr(k: nat, j: nat)
    requires j <= k
    ensures Shr(Pow2(k), j) == Pow2(k - j)
    ensures Shl(Shr(Pow2(k), j), j) == Pow2(k)
  {
    if j > 0 {
      assert Pow2(k) / 2 == Pow2(k - 1);
      ShlOfShr(k - 1, j - 1);
      ShlPow2(k - j, j);
    }
  }

  lemma {:induction false} ShlPow2(a: nat, j: nat)
    ensures Shl(Pow2(a), j) == Pow2(a + j)
  {
    if j > 0 {
      ShlPow2(a, j - 1);
    }
  }

  lemma Pow2Fifteen()
    ensures Pow2(0) == 1 && Pow2(1) == 2 && Pow2(14) == 16384 && Pow2(13) == 8192
  {
    assert Pow2(4) == 16 && Pow2(8) == 256 && Pow2(12) == 4096;
  }

  /** The largest block is the greatest power of two that fits in half the region. */
  lemma MaxBlockIsLargestPower(b: MemoryBlock, size: nat, layers: nat)
    requires size >= 2 && BitsOf(size / 2, layers)
    ensures var m := GeometryFor(b, layers).maxBlock;
      m == Pow2(layers - 1) && m <= size / 2 < 2 * m
  {
    ShlOfShr(layers, 1);
  }

  /**
    Exactly when doubling the smallest block `layers - 1` times gives the largest block back:
    for regions of at least 32 KB (and for the degenerate ones of 2 or 3 bytes).
   */
  lemma LayersMeetExactly(b: MemoryBlock, size: nat, layers: nat)
    requires size >= 2 && BitsOf(size / 2, layers)
    ensures var g := GeometryFor(b, layers);
      g.maxBlock == Shl(g.minBlock, g.layers - 1) <==> size >= 0x8000 || size <= 3
  {
    MaxBlockIsLargestPower(b, size, layers);
    Pow2Fifteen();
    var g := GeometryFor(b, layers);
    if layers >= 15 {
      Pow2Monotone(14, layers - 1);
      ShlOfShr(layers - 1, 13);
    } else {
      Pow2Monotone(layers, 14);
      if layers == 1 {
        assert g.minBlock == g.maxBlock;
      } else {
        Pow2Monotone(1, layers - 1);
        ShlOfShr(layers - 1, layers - 2);
        assert g.minBlock == Pow2(1);
        ShlPow2(1, layers - 1);
      }
    }
  }

  /** The fields of the geometry of a region of at least 32 KB. */
  lemma GeometryFields(b: MemoryBlock, layers: nat)
    requires 0x8000 <= b.length && BitsOf(b.length / 2, layers)
    ensures layers >= 15
    ensures var g := GeometryFor(b, layers);
      && g.layers == BUDDY_LAYERS && g.minBlock == Pow2(layers - 14) && g.maxBlock == Pow2(layers - 1) == Shl(g.minBlock, 13)
      && g.start == (b.begin + b.length + 1 - g.maxBlock) % 0x1_0000_0000 / PAGE * PAGE
  {
    EnoughLayers(layers, b.length / 2);
    ShlOfShr(layers, 1);
    ShlOfShr(layers - 1, 13);
  }

  lemma EnoughLayers(layers: nat, v: nat)
    requires v >= 0x4000 && v < Pow2(layers)
    ensures layers >= 15
  {
    Pow2Fifteen();
    if layers < 15 {
      Pow2Monotone(layers, 14);
    }
  }

  /** In the supported regime the geometry satisfies what the allocator relies on. */
  lemma InitGivesValidGeometry(b: MemoryBlock, layers: nat)
    requires 0x8000 <= b.length < 0x8000_0000 && BitsOf(b.length / 2, layers)
    requires b.begin + b.length <= 0x1_0000_0000
    ensures GeometryFor(b, layers).Valid() && GeometryFor(b, layers).layers == BUDDY_LAYERS
    ensures GeometryFor(b, layers).maxBlock <= 0x2000_0000
  {
    GeometryFields(b, layers);
    MaxBlockBound(layers, b.length);
    MaxBlockIsLargestPower(b, b.length, layers);
    AlignedPower(layers);
    RoundedDown(b.begin + b.length + 1, Pow2(layers - 1));
    var g := GeometryFor(b, layers);
    hide GeometryFor, Shl;
    FitsGeometry(g);
  }

  lemma FitsGeometry(g: Geometry)
    requires g.layers == BUDDY_LAYERS && g.minBlock > 0 && g.maxBlock == Shl(g.minBlock, 13) <= 0x2000_0000
    requires g.start % PAGE == 0 && g.start + g.maxBlock <= 0x1_0000_0000
    ensures g.Valid()
  {
  }

  /** An end rounded down to a page, with a block of length `m` in front of it. */
  lemma RoundedDown(end: nat, m: nat)
    requires 0 < m <= end <= 0x1_0000_0001 && m % PAGE == 0
    ensures var start := (end - m) % 0x1_0000_0000 / PAGE * PAGE;
      start % PAGE == 0 && start + m <= 0x1_0000_0000 && start <= end - m
  {
    var x, q := end - m, m / PAGE;
    PageFloor(x);
    if end == 0x1_0000_0001 {
      assert x == PAGE * (0x10_0000 - q) + 1;
    }
  }

  lemma PageFloor(x: nat)
    ensures x / PAGE * PAGE <= x < x / PAGE * PAGE + PAGE && x / PAGE * PAGE % PAGE == 0
  {
  }

  /**
    The smallest blocks are whole pages exactly for regions of at least 64 MB; below that, two or more of them
    share each page.
   */
  lemma WholePagesIff(b: MemoryBlock, layers: nat)
    requires 0x8000 <= b.length && BitsOf(b.length / 2, layers)
    ensures var m := GeometryFor(b, layers).minBlock;
      && (m % PAGE == 0 <==> b.length >= 0x400_0000)
      && (m % PAGE != 0 <==> 2 * m <= PAGE)
  {
    hide *;
    GeometryFields(b, layers);
    if layers >= 26 {
      LargeLayers(layers, b.length);
    } else {
      SmallLayers(layers, b.length);
    }
  }

  lemma LargeLayers(layers: nat, length: nat)
    requires layers >= 26 && BitsOf(length / 2, layers)
    ensures Pow2(layers - 14) % PAGE == 0 && 2 * Pow2(layers - 14) > PAGE && length >= 0x400_0000
  {
    Pow2Twelve();
    PowAligned(layers - 14);
    Pow2Monotone(12, layers - 14);
    Pow2Monotone(25, layers - 1);
  }

  lemma SmallLayers(layers: nat, length: nat)
    requires 14 <= layers < 26 && BitsOf(length / 2, layers)
    ensures Pow2(layers - 14) % PAGE != 0 && 2 * Pow2(layers - 14) <= PAGE && length < 0x400_0000
  {
    Pow2Twelve();
    Pow2Monotone(layers, 25);
    Pow2Monotone(layers - 14, 11);
    SmallBlock(Pow2(layers - 14));
  }

  lemma SmallBlock(m: nat)
    requires 0 < m <= 0x800
    ensures m % PAGE != 0 && 2 * m <= PAGE
  {
  }

  lemma Pow2Twelve()
    ensures Pow2(11) == 0x800 && Pow2(12) == 0x1000 && Pow2(25) == 0x200_0000
  {
    assert Pow2(4) == 16 && Pow2(8) == 256 && Pow2(12) == 0x1000;
    Pow2Add(12, 13);
    assert Pow2(13) == 0x2000;
  }

  lemma MaxBlockBound(layers: nat, length: nat)
    requires layers > 0 && length < 0x8000_0000 && Pow2(layers - 1) <= length / 2
    ensures Pow2(layers - 1) <= 0x2000_0000
  {
    assert Pow2(30) == 0x4000_0000 by {
      Pow2Fifteen();
      Pow2Add(14, 14);
      Pow2Add(28, 2);
    }
    if layers - 1 >= 30 {
      Pow2Monotone(30, layers - 1);
    } else {
      assert Pow2(29) == 0x2000_0000;
      Pow2Monotone(layers - 1, 29);
    }
  }

  /**
    Where the arena lies: on the last pages that end at most one byte behind the region. Rounding its start down
    keeps it inside the region, except when the region ends one byte short of a page boundary; then its last byte
    lies behind the region.
   */
  lemma ArenaInsideRegion(b: MemoryBlock, layers: nat)
    requires 0x8000 <= b.length < 0x8000_0000 && BitsOf(b.length / 2, layers)
    requires b.begin + b.length < 0x1_0000_0000
    ensures var g := GeometryFor(b, layers);
      && b.begin <= g.start && g.start % 4096 == 0
      && g.start + g.maxBlock <= b.begin + b.length + 1 < g.start + g.maxBlock + 4096
      && (g.start + g.maxBlock <= b.begin + b.length <==> (b.begin + b.length) % PAGE != PAGE - 1)
  {
    hide *;
    GeometryFields(b, layers);
    MaxBlockIsLargestPower(b, b.length, layers);
    AlignedPower(layers);
    InsideRegion(b.begin, b.length, Pow2(layers - 1));
  }

  lemma AlignedPower(layers: nat)
    requires layers >= 15
    ensures Pow2(layers - 1) % PAGE == 0 && Pow2(layers - 1) > 0
  {
    PowAligned(layers - 1);
  }

  lemma InsideRegion(begin: nat, length: nat, m: nat)
    requires m % PAGE == 0 && 0 < m <= length / 2 && 0x8000 <= length && begin + length < 0x1_0000_0000
    ensures var start := (begin + length + 1 - m) % 0x1_0000_0000 / PAGE * PAGE;
      && begin <= start && start % 4096 == 0 && start + m <= begin + length + 1 < start + m + 4096
      && (start + m <= begin + length <==> (begin + length) % PAGE != PAGE - 1)
  {
    Remains(begin + length, m);
    PageFloor(begin + length + 1 - m);
  }

  lemma Remains(e: nat, m: nat)
    requires m % PAGE == 0 && m <= e + 1 <= 0x1_0000_0000 && m > 0
    ensures (e + 1 - m) % 0x1_0000_0000 == e + 1 - m
    ensures (e + 1 - m) / PAGE * PAGE + m <= e <==> e % PAGE != PAGE - 1
  {
    var q := m / PAGE;
    assert (e + 1 - m) / PAGE == (e + 1) / PAGE - q;
    LastOfPage(e);
  }

  lemma LastOfPage(e: nat)
    ensures (e + 1) / PAGE * PAGE <= e <==> e % PAGE != PAGE - 1
  {
    var q, r := e / PAGE, e % PAGE;
    assert e == PAGE * q + r;
    if r == PAGE - 1 {
      assert (e + 1) / PAGE == q + 1;
    } else {
      assert (e + 1) / PAGE == q;
    }
  }

  lemma Doubled(p: nat)
    requires p % PAGE == 0
    ensures 2 * p % PAGE == 0
  {
    var q := p / PAGE;
    assert 2 * p == PAGE * (2 * q);
  }

  lemma {:induction false} PowAligned(k: nat)
    requires k >= 12
    ensures Pow2(k) % PAGE == 0
  {
    if k == 12 {
      Pow2Twelve();
    } else {
      PowAligned(k - 1);
      Doubled(Pow2(k - 1));
    }
  }
}
