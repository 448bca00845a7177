/** Whole runs of a program that uses the heap: what it stored in an object is there until it frees the object. */
module HeapRuns {
  import opened Basics
  import opened HeapLayout
  import opened Sequences
  import opened RawMemory
  import opened HeapMemory
  import opened HeapPayload
  import H = Heap
  import BG = BuddyGeometry
  import BM = BuddyMarks
  import BS = BuddySearch
  import BT = BuddyTree

  /** An object the program holds: the pointer `malloc` returned, and what was last stored in its bytes. */
  datatype Held = Held(ptr: nat, data: seq<byte>)

  /** What a program can do: get an object and fill it, store other bytes in one it holds, or free one. */
  datatype Step = Request(data: seq<byte>) | Update(i: nat, data: seq<byte>) | Release(i: nat)

  ghost predicate Intact(m: seq<byte>, o: Held) {
    && MEMORY_BASE <= o.ptr && o.ptr + |o.data| <= MEMORY_BASE + |m|
    && forall x :: 0 <= x < |o.data| ==> m[o.ptr - MEMORY_BASE + x] == o.data[x]
  }

  /** The live objects are exactly those held, each with its size and its bytes. */
  ghost predicate Keeps(sizes: map<nat, nat>, m: seq<byte>, held: seq<Held>) {
    AllEntries(sizes, m, held) && Distinct(held) && NoneLost(sizes, held)
  }

  ghost predicate AllEntries(sizes: map<nat, nat>, m: seq<byte>, held: seq<Held>) {
    forall i :: 0 <= i < |held| ==> Entry(sizes, m, held[i])
  }

  ghost predicate Distinct(held: seq<Held>) {
    forall i, k :: 0 <= i < k < |held| ==> held[i].ptr != held[k].ptr
  }

  ghost predicate NoneLost(sizes: map<nat, nat>, held: seq<Held>) {
    forall a :: a in sizes ==> HeldAt(held, a + HEADER)
  }

  ghost predicate Entry(sizes: map<nat, nat>, m: seq<byte>, o: Held) {
    && o.ptr >= HEADER && o.ptr - HEADER in sizes && sizes[o.ptr - HEADER] == |o.data| + HEADER
    && Intact(m, o)
  }

  ghost predicate HeldAt(held: seq<Held>, ptr: nat) {
    exists i :: 0 <= i < |held| && held[i].ptr == ptr
  }

  /** Nothing but the payload of `a` differs. */
  ghost predicate OnlyPayload(m: seq<byte>, m': seq<byte>, a: nat, size: nat) {
    && |m| == |m'| && MEMORY_BASE <= a
    && forall x :: 0 <= x < |m| && !(a + HEADER - MEMORY_BASE <= x < a + size - MEMORY_BASE) ==> m'[x] == m[x]
  }

  // ---- stores of the program ----

  lemma LoadUntouched(m: seq<byte>, m': seq<byte>, a: nat, size: nat, h: nat)
    requires OnlyPayload(m, m', a, size) && Addressable(m, h) && Clear(h, a, size)
    ensures Addressable(m', h) && Load(m', h) == Load(m, h)
  {
  }

  lemma ListUntouched(m: seq<byte>, m': seq<byte>, a: nat, size: nat, root: nat, s: seq<nat>)
    requires OnlyPayload(m, m', a, size) && Linked(m, root, s)
    requires forall k {:trigger Link(root, s, k)} :: 0 <= k <= |s| ==> Clear(Link(root, s, k), a, size)
    ensures Linked(m', root, s)
  {
    hide Load, Clear, OnlyPayload;
    forall k | 0 <= k <= |s|
      ensures Addressable(m', Link(root, s, k)) && Load(m', Link(root, s, k)) == Load(m, Link(root, s, k))
    {
      LoadUntouched(m, m', a, size, Link(root, s, k));
    }
  }

  /** A program that stays inside its object cannot damage the heap. */
  lemma PayloadHarmless(m: seq<byte>, m': seq<byte>, heapc: nat, l: Layout, a: nat, size: nat)
    requires Holds(m, heapc, l) && Owns(l, a, size) && OnlyPayload(m, m', a, size)
    ensures Holds(m', heapc, l)
  {
    assert |m'| == |m|;
    hide Owns, Clear, Linked, OnlyPayload, Layout.Valid, Addressable;
    LinksClear(m, heapc, l, a, size);
    ListUntouched(m, m', a, size, heapc, l.A);
    ListUntouched(m, m', a, size, heapc + 4, l.F);
  }

  /** The payloads of two objects never overlap. */
  lemma OwnersApart(l: Layout, a: nat, size: nat, b: nat, size': nat)
    requires Owns(l, a, size) && Owns(l, b, size') && a != b
    ensures a + size <= b || b + size' <= a
  {
    var i :| 0 <= i < |l.A| && l.A[i] == a;
    var k :| 0 <= k < |l.A| && l.A[k] == b;
  }

  lemma OthersUntouched(m: seq<byte>, m': seq<byte>, l: Layout, sizes: map<nat, nat>, a: nat)
    requires OwnAll(l, sizes) && a in sizes && OnlyPayload(m, m', a, sizes[a])
    requires MEMORY_BASE <= l.base && l.limit <= MEMORY_BASE + |m|
    ensures H.KeptPayloads(m, m', sizes - {a})
  {
    forall b | b in sizes && b != a
      ensures SamePayload(m, m', b, sizes[b])
    {
      OwnersApart(l, a, sizes[a], b, sizes[b]);
    }
  }

  /** The program stores `data` in the object at `ptr`, whose whole length that is. */
  method Fill(heap: H.Heap, ptr: nat, data: seq<byte>)
    requires heap.Valid()
    requires ptr >= HEADER && ptr - HEADER in heap.sizes && heap.sizes[ptr - HEADER] == |data| + HEADER
    modifies heap.mem
    ensures heap.Valid() && heap.sizes == old(heap.sizes) && heap.layout == old(heap.layout)
    ensures Intact(heap.mem[..], Held(ptr, data))
    ensures H.KeptPayloads(old(heap.mem[..]), heap.mem[..], heap.sizes - {ptr - HEADER})
  {
    hide *;
    ghost var m := heap.mem[..];
    Bounds(heap, ptr - HEADER);
    CopyTo(heap.mem, ptr, data);
    PayloadHarmless(m, heap.mem[..], heap.heapc, heap.layout, ptr - HEADER, |data| + HEADER);
    OthersUntouched(m, heap.mem[..], heap.layout, heap.sizes, ptr - HEADER);
    StillValid(heap);
  }

  method CopyTo(mem: array<byte>, ptr: nat, data: seq<byte>)
    requires MEMORY_BASE + HEADER <= ptr && ptr + |data| <= MEMORY_BASE + mem.Length
    modifies mem
    ensures Intact(mem[..], Held(ptr, data))
    ensures OnlyPayload(old(mem[..]), mem[..], ptr - HEADER, |data| + HEADER)
  {
    var start := ptr - MEMORY_BASE;
    for x := 0 to |data|
      invariant forall z :: 0 <= z < mem.Length ==>
        mem[z] == if start <= z < start + x then data[z - start] else old(mem[z])
    {
      mem[start + x] := data[x];
    }
  }

  lemma Bounds(heap: H.Heap, a: nat)
    requires heap.Valid() && a in heap.sizes
    ensures !heap.Empty() && heap.Shaped() && heap.buddy.Valid()
    ensures Holds(heap.mem[..], heap.heapc, heap.layout) && OwnAll(heap.layout, heap.sizes)
    ensures Owns(heap.layout, a, heap.sizes[a]) && heap.layout.base <= a && a + heap.sizes[a] <= heap.layout.limit
    ensures MEMORY_BASE <= heap.layout.base && heap.layout.limit <= MEMORY_BASE + heap.mem.Length
    ensures heap.node !in heap.home && heap.buddy.live == heap.home + {heap.node}
    ensures heap.node.layer < heap.buddy.geometry.layers
    ensures heap.blockAt == MEMORY_BASE + heap.buddy.geometry.Offset(heap.node)
    ensures heap.blockSize == heap.buddy.geometry.BlockSize(heap.node.layer)
    ensures heap.layout.base == heap.blockAt && heap.layout.limit == heap.blockAt + heap.blockSize
    ensures heap.mem as object != heap.buddy.block as object && heap.mem as object != heap.buddy.pageTables as object
  {
  }

  lemma StillValid(heap: H.Heap)
    requires heap.Shaped() && heap.buddy.Valid() && !heap.Empty()
    requires Holds(heap.mem[..], heap.heapc, heap.layout) && OwnAll(heap.layout, heap.sizes)
    requires heap.node !in heap.home && heap.buddy.live == heap.home + {heap.node}
    requires heap.node.layer < heap.buddy.geometry.layers
    requires heap.blockAt == MEMORY_BASE + heap.buddy.geometry.Offset(heap.node)
    requires heap.blockSize == heap.buddy.geometry.BlockSize(heap.node.layer)
    requires heap.layout.base == heap.blockAt && heap.layout.limit == heap.blockAt + heap.blockSize
    ensures heap.Valid()
  {
  }

  // ---- bookkeeping of what is held ----

  lemma IntactKept(m: seq<byte>, m': seq<byte>, o: Held)
    requires o.ptr >= HEADER && Intact(m, o) && SamePayload(m, m', o.ptr - HEADER, |o.data| + HEADER)
    ensures Intact(m', o)
  {
    forall x | 0 <= x < |o.data|
      ensures m'[o.ptr - MEMORY_BASE + x] == o.data[x]
    {
      assert m[o.ptr - MEMORY_BASE + x] == o.data[x];
    }
  }

  lemma KeptTwice(m: seq<byte>, m1: seq<byte>, m2: seq<byte>, sizes: map<nat, nat>)
    requires H.KeptPayloads(m, m1, sizes) && H.KeptPayloads(m1, m2, sizes)
    ensures H.KeptPayloads(m, m2, sizes)
  {
    forall a | a in sizes
      ensures SamePayload(m, m2, a, sizes[a])
    {
      assert SamePayload(m, m1, a, sizes[a]) && SamePayload(m1, m2, a, sizes[a]);
    }
  }

  lemma EntryKept(sizes: map<nat, nat>, sizes': map<nat, nat>, m: seq<byte>, m': seq<byte>, o: Held)
    requires Entry(sizes, m, o)
    requires o.ptr - HEADER in sizes' && sizes'[o.ptr - HEADER] == sizes[o.ptr - HEADER]
    requires SamePayload(m, m', o.ptr - HEADER, sizes[o.ptr - HEADER])
    ensures Entry(sizes', m', o)
  {
    hide Intact, SamePayload;
    IntactKept(m, m', o);
  }

  lemma PayloadKept(m: seq<byte>, m': seq<byte>, sizes: map<nat, nat>, a: nat)
    requires H.KeptPayloads(m, m', sizes) && a in sizes
    ensures SamePayload(m, m', a, sizes[a])
  {
  }

  lemma EntryAt(sizes: map<nat, nat>, m: seq<byte>, held: seq<Held>, i: nat)
    requires Keeps(sizes, m, held) && i < |held|
    ensures Entry(sizes, m, held[i]) && held[i].ptr >= HEADER && held[i].ptr - HEADER in sizes
  {
  }

  /** Entries stay entries under any change that keeps their sizes and payloads. */
  lemma EntriesKept(sizes: map<nat, nat>, sizes': map<nat, nat>, rest: map<nat, nat>, m: seq<byte>, m': seq<byte>,
                    held: seq<Held>, k: nat)
    requires Keeps(sizes, m, held) && k < |held| && H.KeptPayloads(m, m', rest)
    requires held[k].ptr >= HEADER
    requires var a := held[k].ptr - HEADER; a in rest && a in sizes && a in sizes' && rest[a] == sizes[a] == sizes'[a]
    ensures Entry(sizes', m', held[k])
  {
    hide *;
    EntryAt(sizes, m, held, k);
    PayloadKept(m, m', rest, held[k].ptr - HEADER);
    EntryKept(sizes, sizes', m, m', held[k]);
  }

  lemma Added(sizes: map<nat, nat>, m: seq<byte>, m': seq<byte>, held: seq<Held>, o: Held)
    requires Keeps(sizes, m, held) && o.ptr >= HEADER && o.ptr - HEADER !in sizes
    requires H.KeptPayloads(m, m', sizes) && Intact(m', o)
    ensures Keeps(sizes[o.ptr - HEADER := |o.data| + HEADER], m', held + [o])
  {
    hide *;
    var sizes' := sizes[o.ptr - HEADER := |o.data| + HEADER];
    NewEntry(sizes, m', o);
    forall i: nat | i < |held|
      ensures Entry(sizes', m', held[i]) && held[i].ptr != o.ptr
    {
      EntryAt(sizes, m, held, i);
      EntriesKept(sizes, sizes', sizes, m, m', held, i);
    }
    AddedParts(sizes, sizes', m, m', held, o);
  }

  lemma AddedParts(sizes: map<nat, nat>, sizes': map<nat, nat>, m: seq<byte>, m': seq<byte>, held: seq<Held>, o: Held)
    requires o.ptr >= HEADER && sizes'.Keys == sizes.Keys + {o.ptr - HEADER} && Keeps(sizes, m, held)
    requires Entry(sizes', m', o) && forall i: nat :: i < |held| ==> Entry(sizes', m', held[i]) && held[i].ptr != o.ptr
    ensures Keeps(sizes', m', held + [o])
  {
    hide Entry, HeldAt;
    var held' := held + [o];
    assert held'[|held|] == o && forall i :: 0 <= i < |held| ==> held'[i] == held[i];
    assert AllEntries(sizes', m', held') by {
      hide NoneLost, Distinct;
    }
    assert Distinct(held') by {
      hide NoneLost, AllEntries;
    }
    AddedNoneLost(sizes, sizes', held, o);
  }

  lemma AddedNoneLost(sizes: map<nat, nat>, sizes': map<nat, nat>, held: seq<Held>, o: Held)
    requires o.ptr >= HEADER && sizes'.Keys == sizes.Keys + {o.ptr - HEADER} && NoneLost(sizes, held)
    ensures NoneLost(sizes', held + [o])
  {
    var held' := held + [o];
    forall a | a in sizes'
      ensures HeldAt(held', a + HEADER)
    {
      if a in sizes {
        assert HeldAt(held, a + HEADER);
        var i :| 0 <= i < |held| && held[i].ptr == a + HEADER;
        assert held'[i].ptr == a + HEADER;
      } else {
        assert held'[|held|].ptr == a + HEADER;
      }
    }
  }

  lemma NewEntry(sizes: map<nat, nat>, m: seq<byte>, o: Held)
    requires o.ptr >= HEADER && Intact(m, o)
    ensures Entry(sizes[o.ptr - HEADER := |o.data| + HEADER], m, o)
  {
  }

  lemma WithoutObject(sizes: map<nat, nat>, m: seq<byte>, m': seq<byte>, held: seq<Held>, i: nat)
    requires Keeps(sizes, m, held) && i < |held| && held[i].ptr >= HEADER
    requires H.KeptPayloads(m, m', sizes - {held[i].ptr - HEADER})
    ensures Keeps(sizes - {held[i].ptr - HEADER}, m', Remove(held, i))
  {
    hide *;
    var rest := sizes - {held[i].ptr - HEADER};
    forall q: nat | q < |held| && q != i
      ensures Entry(rest, m', held[q])
    {
      DroppedEntry(sizes, m, m', held, i, q);
    }
    DroppedParts(sizes, rest, m, m', held, i);
  }

  lemma DroppedEntry(sizes: map<nat, nat>, m: seq<byte>, m': seq<byte>, held: seq<Held>, i: nat, q: nat)
    requires Keeps(sizes, m, held) && i < |held| && held[i].ptr >= HEADER && q < |held| && q != i
    requires H.KeptPayloads(m, m', sizes - {held[i].ptr - HEADER})
    ensures Entry(sizes - {held[i].ptr - HEADER}, m', held[q])
  {
    hide *;
    EntryAt(sizes, m, held, q);
    HeldDiffer(sizes, m, held, q, i);
    var rest := sizes - {held[i].ptr - HEADER};
    EntriesKept(sizes, rest, rest, m, m', held, q);
  }

  lemma HeldDiffer(sizes: map<nat, nat>, m: seq<byte>, held: seq<Held>, i: nat, k: nat)
    requires Keeps(sizes, m, held) && i < |held| && k < |held| && i != k
    ensures held[i].ptr != held[k].ptr
  {
  }

  lemma DroppedParts(sizes: map<nat, nat>, rest: map<nat, nat>, m: seq<byte>, m': seq<byte>, held: seq<Held>, i: nat)
    requires i < |held| && held[i].ptr >= HEADER && rest.Keys == sizes.Keys - {held[i].ptr - HEADER}
    requires Keeps(sizes, m, held)
    requires forall q: nat :: q < |held| && q != i ==> Entry(rest, m', held[q])
    ensures Keeps(rest, m', Remove(held, i))
  {
    hide AllEntries, Distinct, NoneLost, Entry, Remove;
    DroppedEntries(rest, m', held, i);
    DroppedDistinct(held, i);
    DroppedNoneLost(sizes, rest, held, i);
  }

  lemma DroppedEntries(rest: map<nat, nat>, m: seq<byte>, held: seq<Held>, i: nat)
    requires i < |held| && forall q: nat :: q < |held| && q != i ==> Entry(rest, m, held[q])
    ensures AllEntries(rest, m, Remove(held, i))
  {
    var held' := Remove(held, i);
    hide Entry, Remove;
    forall k | 0 <= k < |held'|
      ensures Entry(rest, m, held'[k])
    {
      assert held'[k] == held[if k < i then k else k + 1];
    }
  }

  lemma DroppedDistinct(held: seq<Held>, i: nat)
    requires i < |held| && Distinct(held)
    ensures Distinct(Remove(held, i))
  {
    var held' := Remove(held, i);
    hide Remove;
    forall j, k | 0 <= j < k < |held'|
      ensures held'[j].ptr != held'[k].ptr
    {
      assert held'[j] == held[if j < i then j else j + 1] && held'[k] == held[if k < i then k else k + 1];
    }
  }

  lemma DroppedNoneLost(sizes: map<nat, nat>, rest: map<nat, nat>, held: seq<Held>, i: nat)
    requires i < |held| && held[i].ptr >= HEADER && rest.Keys == sizes.Keys - {held[i].ptr - HEADER}
    requires NoneLost(sizes, held)
    ensures NoneLost(rest, Remove(held, i))
  {
    var held' := Remove(held, i);
    hide Remove;
    forall a | a in rest
      ensures HeldAt(held', a + HEADER)
    {
      assert a in sizes && HeldAt(held, a + HEADER);
      var q :| 0 <= q < |held| && held[q].ptr == a + HEADER;
      assert held'[if q < i then q else q - 1].ptr == a + HEADER;
    }
  }

  lemma Replaced(sizes: map<nat, nat>, m: seq<byte>, m': seq<byte>, held: seq<Held>, i: nat, data: seq<byte>)
    requires Keeps(sizes, m, held) && i < |held| && |data| == |held[i].data|
    requires held[i].ptr >= HEADER && H.KeptPayloads(m, m', sizes - {held[i].ptr - HEADER}) && Intact(m', Held(held[i].ptr, data))
    ensures Keeps(sizes, m', held[i := Held(held[i].ptr, data)])
  {
    var rest, held' := sizes - {held[i].ptr - HEADER}, held[i := Held(held[i].ptr, data)];
    ReplacedEntry(sizes, m, m', held, i, data);
    hide *;
    forall k | 0 <= k < |held'|
      ensures Entry(sizes, m', held'[k]) && held'[k].ptr == held[k].ptr
    {
      if k != i {
        EntryAt(sizes, m, held, k);
        HeldDiffer(sizes, m, held, k, i);
        EntriesKept(sizes, sizes, rest, m, m', held, k);
      }
    }
    ReplacedParts(sizes, m, m', held, held');
  }

  lemma ReplacedEntry(sizes: map<nat, nat>, m: seq<byte>, m': seq<byte>, held: seq<Held>, i: nat, data: seq<byte>)
    requires Keeps(sizes, m, held) && i < |held| && |data| == |held[i].data| && Intact(m', Held(held[i].ptr, data))
    ensures Entry(sizes, m', Held(held[i].ptr, data))
  {
    hide Intact;
    EntryAt(sizes, m, held, i);
  }

  lemma ReplacedParts(sizes: map<nat, nat>, m: seq<byte>, m': seq<byte>, held: seq<Held>, held': seq<Held>)
    requires Keeps(sizes, m, held) && |held'| == |held|
    requires forall k :: 0 <= k < |held'| ==> Entry(sizes, m', held'[k]) && held'[k].ptr == held[k].ptr
    ensures Keeps(sizes, m', held')
  {
    hide Entry;
    forall a | a in sizes
      ensures HeldAt(held', a + HEADER)
    {
      var q :| 0 <= q < |held| && held[q].ptr == a + HEADER;
      assert held'[q].ptr == a + HEADER;
    }
  }

  // ---- runs ----

  /** What a run looks at: the layout of the heap, the live objects, and those held with their bytes. */
  datatype RunState = RunState(layout: Layout, sizes: map<nat, nat>, held: seq<Held>)

  /** The arena and the buddy blocks that are not the heap's: they decide whether an empty heap gets a block. */
  datatype Setting = Setting(g: BG.Geometry, home: set<BT.Node>)

  ghost predicate NoBlock(c: Setting, need: nat)
    requires c.g.Valid()
  {
    need > c.g.maxBlock || BS.NoFreeBlock(c.home, c.g.layers, BS.FitLayer(c.g, need))
  }

  /** An empty heap served a request from a new block at `base`. */
  ghost predicate Started(data: seq<byte>, s: RunState, t: RunState, base: nat, limit: nat) {
    && base + |data| + HEADER <= limit
    && t == RunState(FirstLayout(base, limit, |data| + HEADER), map[base := |data| + HEADER], s.held + [Held(base + HEADER, data)])
  }

  /** A request was served from gap `j`. */
  ghost predicate Filled(data: seq<byte>, s: RunState, t: RunState, j: nat, ptr: nat) {
    && H.TookGap(s.layout, s.sizes, |data| + HEADER, j, ptr, t.layout, t.sizes)
    && t.held == s.held + [Held(ptr, data)]
  }

  /**
    A request that gets an answer: it is refused if it is empty, or if the heap has no block and none is to be had;
    else the new object holds the data.
   */
  ghost predicate Requested(c: Setting, data: seq<byte>, s: RunState, t: RunState)
    requires c.g.Valid()
  {
    if data == [] then t == s
    else if s.layout.A == [] then
      if NoBlock(c, |data| + HEADER) then t == s else exists base, limit :: Started(data, s, t, base, limit)
    else exists j, ptr :: Filled(data, s, t, j, ptr)
  }

  /** The step asks for more than any gap of the block holds: the source then turns to the buddy allocator again. */
  ghost predicate Outgrown(step: Step, s: RunState) {
    step.Request? && step.data != [] && s.layout.A != [] && H.NoGapFits(s.layout, |step.data| + HEADER)
  }

  ghost predicate Updated(i: nat, data: seq<byte>, s: RunState, t: RunState) {
    if i < |s.held| && |data| == |s.held[i].data| then t == s.(held := s.held[i := Held(s.held[i].ptr, data)]) else t == s
  }

  ghost predicate FreedAt(i: nat, s: RunState, t: RunState, k: nat, j: nat)
    requires i < |s.held| && s.held[i].ptr >= HEADER
  {
    var h := s.held[i].ptr - HEADER;
    H.Freed(s.layout, h, k, j, t.layout) && t.sizes == s.sizes - {h}
  }

  ghost predicate Released(i: nat, s: RunState, t: RunState) {
    if i < |s.held| then
      && t.held == Remove(s.held, i) && s.held[i].ptr >= HEADER
      && exists k, j :: FreedAt(i, s, t, k, j)
    else t == s
  }

  ghost predicate Stepped(c: Setting, step: Step, s: RunState, t: RunState)
    requires c.g.Valid()
  {
    match step
    case Request(data) => Requested(c, data, s, t)
    case Update(i, data) => Updated(i, data, s, t)
    case Release(i) => Released(i, s, t)
  }

  /** Each state follows from the one before it by its step. */
  ghost predicate IsTrace(c: Setting, steps: seq<Step>, trace: seq<RunState>)
    requires c.g.Valid()
  {
    && 0 < |trace| <= |steps| + 1
    && forall n :: 0 <= n < |trace| - 1 ==> Stepped(c, steps[n], trace[n], trace[n + 1])
  }

  lemma TraceGrows(c: Setting, steps: seq<Step>, trace: seq<RunState>, t: RunState)
    requires c.g.Valid() && IsTrace(c, steps, trace) && |trace| <= |steps|
    requires Stepped(c, steps[|trace| - 1], trace[|trace| - 1], t)
    ensures IsTrace(c, steps, trace + [t])
  {
    hide Stepped;
  }

  lemma TraceStarts(c: Setting, steps: seq<Step>, s: RunState)
    requires c.g.Valid()
    ensures IsTrace(c, steps, [s])
  {
  }

  lemma GeometryOf(heap: H.Heap)
    requires heap.Valid()
    ensures heap.buddy.geometry.Valid()
  {
  }

  /** A gap was taken, so one fits. */
  lemma TookFits(l: Layout, sizes: map<nat, nat>, need: nat, j: nat, ptr: nat, l': Layout, sizes': map<nat, nat>)
    requires H.TookGap(l, sizes, need, j, ptr, l', sizes')
    ensures !H.NoGapFits(l, need) && ptr >= HEADER
    ensures ptr - HEADER !in sizes && sizes' == sizes[ptr - HEADER := need]
  {
  }

  /** A request that was served from a gap did not outgrow the block. */
  lemma NotOutgrown(c: Setting, step: Step, s: RunState, t: RunState)
    requires c.g.Valid() && Stepped(c, step, s, t)
    ensures !Outgrown(step, s)
  {
    hide H.TookGap, H.NoGapFits;
    if Outgrown(step, s) {
      var j, ptr :| Filled(step.data, s, t, j, ptr);
      TookFits(s.layout, s.sizes, |step.data| + HEADER, j, ptr, t.layout, t.sizes);
      assert false;
    }
  }

  /** What the first request of an empty heap leaves. */
  lemma StartedLeaves(data: seq<byte>, s: RunState, t: RunState, base: nat, limit: nat)
    requires Started(data, s, t, base, limit) && data != []
    ensures RestFree(t.layout, base, limit, |data| + 4) && t.layout.Valid()
    ensures t.held == s.held + [Held(base + 4, data)] && base + |data| + 4 <= limit
  {
    FirstFrees(base, limit, |data| + HEADER);
    FirstValid(base, limit, |data| + HEADER);
  }

  /**
    In every run: if an empty heap serves a request, and the next step is another one, that object lies right behind
    the first, or outgrows the block exactly if the rest of it is too short.
   */
  lemma SecondBehindFirst(c: Setting, d1: seq<byte>, d2: seq<byte>, s: RunState, t: RunState, u: RunState)
    requires c.g.Valid() && d1 != [] && d2 != [] && s.layout.A == [] && t.layout.A != []
    requires Stepped(c, Request(d1), s, t)
    ensures |t.held| == |s.held| + 1 && t.held[..|s.held|] == s.held && t.held[|s.held|].data == d1
    ensures var p := t.held[|s.held|].ptr;
      && p == t.layout.base + 4
      && (Outgrown(Request(d2), t) <==> p + |d1| + 4 + |d2| > t.layout.limit)
      && (Stepped(c, Request(d2), t, u) ==> u.held == t.held + [Held(p + |d1| + 4, d2)])
  {
    hide H.TookGap, H.NoGapFits, FirstLayout, RestFree;
    var base, limit :| Started(d1, s, t, base, limit);
    StartedLeaves(d1, s, t, base, limit);
    H.RestFields(t.layout, base, limit, |d1| + 4);
    H.BehindFirst(t.layout, t.sizes, base, limit, |d1| + 4, |d2| + 4);
  }

  /** The request alone: `malloc` as one step of the run, before the program fills the object. */
  method Obtain(heap: H.Heap, data: seq<byte>, ghost held: seq<Held>) returns (r: H.MallocResult)
    requires heap.Valid()
    modifies heap, heap.mem, heap.buddy.block, heap.buddy.pageTables, heap.buddy`live
    ensures heap.Valid() && heap.buddy.geometry.Valid()
    ensures !r.NeedsBlock? ==>
      Requested(Setting(heap.buddy.geometry, heap.home), data, RunState(old(heap.layout), old(heap.sizes), held),
        RunState(heap.layout, heap.sizes, if r.Placed? then held + [Held(r.ptr, data)] else held))
    ensures r.NeedsBlock? ==>
      Outgrown(Request(data), RunState(old(heap.layout), old(heap.sizes), held)) && heap.layout == old(heap.layout)
    ensures r.Placed? ==> r.ptr >= HEADER && r.ptr - HEADER !in old(heap.sizes)
    ensures r.Placed? ==> heap.sizes == old(heap.sizes)[r.ptr - HEADER := |data| + HEADER]
    ensures r.Placed? ==> H.KeptPayloads(old(heap.mem[..]), heap.mem[..], old(heap.sizes))
    ensures !r.Placed? ==> heap.sizes == old(heap.sizes) && heap.mem[..] == old(heap.mem[..])
  {
    hide *;
    GeometryOf(heap);
    heap.RootTells();
    EmptyMeans(heap);
    ghost var s := RunState(heap.layout, heap.sizes, held);
    ghost var j;
    r, j := heap.Malloc(|data|);
    ghost var c := Setting(heap.buddy.geometry, heap.home);
    if r.NeedsBlock? {
      Outgrows(data, s);
    } else if r.Null? {
      Refused(c, data, s);
    } else {
      ghost var t := RunState(heap.layout, heap.sizes, held + [Held(r.ptr, data)]);
      if s.layout.A == [] {
        ServedFirst(c, data, s, t, heap.blockAt, heap.blockAt + heap.blockSize);
      } else {
        ServedInGap(c, data, s, t, j, r.ptr);
      }
    }
  }

  lemma EmptyMeans(heap: H.Heap)
    ensures heap.Empty() <==> heap.layout.A == []
  {
  }

  lemma Refused(c: Setting, data: seq<byte>, s: RunState)
    requires c.g.Valid()
    requires data == [] ||
      (s.layout.A == [] &&
       (|data| + HEADER > c.g.maxBlock || BS.NoFreeBlock(c.home, c.g.layers, BS.FitLayer(c.g, |data| + HEADER))))
    ensures Requested(c, data, s, s)
  {
  }

  lemma Outgrows(data: seq<byte>, s: RunState)
    requires data != [] && s.layout.A != [] && H.NoGapFits(s.layout, |data| + HEADER)
    ensures Outgrown(Request(data), s)
  {
  }

  lemma ServedFirst(c: Setting, data: seq<byte>, s: RunState, t: RunState, base: nat, limit: nat)
    requires c.g.Valid() && data != [] && s.layout.A == []
    requires !(|data| + HEADER > c.g.maxBlock || BS.NoFreeBlock(c.home, c.g.layers, BS.FitLayer(c.g, |data| + HEADER)))
    requires base + |data| + HEADER <= limit && t.held == s.held + [Held(base + HEADER, data)]
    requires t.layout == FirstLayout(base, limit, |data| + HEADER) && t.sizes == map[base := |data| + HEADER]
    ensures Requested(c, data, s, t)
  {
    assert Started(data, s, t, base, limit);
  }

  lemma ServedInGap(c: Setting, data: seq<byte>, s: RunState, t: RunState, j: nat, ptr: nat)
    requires c.g.Valid() && data != [] && s.layout.A != [] && t.held == s.held + [Held(ptr, data)]
    requires H.TookGap(s.layout, s.sizes, |data| + HEADER, j, ptr, t.layout, t.sizes)
    ensures Requested(c, data, s, t) && ptr >= HEADER && ptr - HEADER !in s.sizes
    ensures t.sizes == s.sizes[ptr - HEADER := |data| + HEADER]
  {
    TookFits(s.layout, s.sizes, |data| + HEADER, j, ptr, t.layout, t.sizes);
    assert Filled(data, s, t, j, ptr);
  }

  /**
    One request: on success the object holds the data, and all others hold what they held. `outgrown` tells that the
    request would need a further block, and that nothing was done.
   */
  method RunRequest(heap: H.Heap, data: seq<byte>, held: seq<Held>) returns (held': seq<Held>, outgrown: bool)
    requires heap.Valid() && Keeps(heap.sizes, heap.mem[..], held)
    modifies heap, heap.mem, heap.buddy.block, heap.buddy.pageTables, heap.buddy`live
    ensures heap.Valid() && Keeps(heap.sizes, heap.mem[..], held') && heap.buddy.geometry.Valid()
    ensures !outgrown ==>
      Requested(Setting(heap.buddy.geometry, heap.home), data, RunState(old(heap.layout), old(heap.sizes), held),
        RunState(heap.layout, heap.sizes, held'))
    ensures outgrown ==>
      && Outgrown(Request(data), RunState(old(heap.layout), old(heap.sizes), held))
      && heap.layout == old(heap.layout) && heap.sizes == old(heap.sizes) && held' == held
  {
    hide *;
    ghost var m, sizes := heap.mem[..], heap.sizes;
    var r := Obtain(heap, data, held);
    if !r.Placed? {
      return held, r.NeedsBlock?;
    }
    outgrown := false;
    ghost var m1 := heap.mem[..];
    assert heap.sizes - {r.ptr - HEADER} == sizes;
    Fill(heap, r.ptr, data);
    KeptTwice(m, m1, heap.mem[..], sizes);
    Added(sizes, m, heap.mem[..], held, Held(r.ptr, data));
    held' := held + [Held(r.ptr, data)];
  }

  lemma UpdatedTo(i: nat, data: seq<byte>, s: RunState)
    requires i < |s.held| && |data| == |s.held[i].data|
    ensures Updated(i, data, s, s.(held := s.held[i := Held(s.held[i].ptr, data)]))
  {
  }

  method RunUpdate(heap: H.Heap, i: nat, data: seq<byte>, held: seq<Held>) returns (held': seq<Held>)
    requires heap.Valid() && Keeps(heap.sizes, heap.mem[..], held)
    requires i < |held| && |data| == |held[i].data|
    modifies heap.mem
    ensures heap.Valid() && Keeps(heap.sizes, heap.mem[..], held')
    ensures Updated(i, data, RunState(heap.layout, heap.sizes, held), RunState(heap.layout, heap.sizes, held'))
  {
    hide *;
    ghost var m := heap.mem[..];
    HeldIsLive(heap.sizes, m, held, i);
    Fill(heap, held[i].ptr, data);
    held' := held[i := Held(held[i].ptr, data)];
    Replaced(heap.sizes, m, heap.mem[..], held, i, data);
    UpdatedTo(i, data, RunState(heap.layout, heap.sizes, held));
  }

  lemma HeldIsLive(sizes: map<nat, nat>, m: seq<byte>, held: seq<Held>, i: nat)
    requires Keeps(sizes, m, held) && i < |held|
    ensures held[i].ptr >= HEADER && held[i].ptr - HEADER in sizes && held[i].ptr != 0
    ensures sizes[held[i].ptr - HEADER] == |held[i].data| + HEADER
  {
    EntryAt(sizes, m, held, i);
  }

  lemma ReleasedBy(i: nat, s: RunState, t: RunState, k: nat, j: nat)
    requires i < |s.held| && t.held == Remove(s.held, i) && s.held[i].ptr >= HEADER
    requires H.Freed(s.layout, s.held[i].ptr - HEADER, k, j, t.layout) && t.sizes == s.sizes - {s.held[i].ptr - HEADER}
    ensures Released(i, s, t)
  {
    hide H.Freed, Remove;
    assert FreedAt(i, s, t, k, j);
  }

  method RunRelease(heap: H.Heap, i: nat, held: seq<Held>) returns (held': seq<Held>)
    requires heap.Valid() && Keeps(heap.sizes, heap.mem[..], held) && i < |held|
    modifies heap, heap.mem, heap.buddy.block, heap.buddy.pageTables, heap.buddy`live
    ensures heap.Valid() && Keeps(heap.sizes, heap.mem[..], held') && held' == Remove(held, i)
    ensures Released(i, RunState(old(heap.layout), old(heap.sizes), held), RunState(heap.layout, heap.sizes, held'))
  {
    hide *;
    ghost var m, s := heap.mem[..], RunState(heap.layout, heap.sizes, held);
    HeldIsLive(s.sizes, m, held, i);
    ghost var k, j := heap.Free(held[i].ptr);
    if heap.Empty() {
      heap.RootTells();
      NoPayloads(m, heap.mem[..]);
    }
    WithoutObject(s.sizes, m, heap.mem[..], held, i);
    held' := Remove(held, i);
    ReleasedBy(i, s, RunState(heap.layout, heap.sizes, held'), k, j);
  }

  /** One step of a run; `outgrown` tells that it would need a further block, and that nothing was done. */
  method RunStep(heap: H.Heap, step: Step, held: seq<Held>) returns (held': seq<Held>, outgrown: bool)
    requires heap.Valid() && Keeps(heap.sizes, heap.mem[..], held)
    modifies heap, heap.mem, heap.buddy.block, heap.buddy.pageTables, heap.buddy`live
    ensures heap.Valid() && Keeps(heap.sizes, heap.mem[..], held') && heap.buddy.geometry.Valid()
    ensures !outgrown ==>
      Stepped(Setting(heap.buddy.geometry, heap.home), step, RunState(old(heap.layout), old(heap.sizes), held),
        RunState(heap.layout, heap.sizes, held'))
    ensures outgrown <==> Outgrown(step, RunState(old(heap.layout), old(heap.sizes), held))
    ensures outgrown ==> heap.layout == old(heap.layout) && heap.sizes == old(heap.sizes) && held' == held
  {
    hide *;
    GeometryOf(heap);
    ghost var c, s := Setting(heap.buddy.geometry, heap.home), RunState(heap.layout, heap.sizes, held);
    held', outgrown := held, false;
    match step {
      case Request(data) =>
        held', outgrown := RunRequest(heap, data, held);
      case Update(i, data) =>
        if i < |held| && |data| == |held[i].data| {
          held' := RunUpdate(heap, i, data, held);
        }
        NothingDone(step, s);
      case Release(i) =>
        if i < |held| {
          held' := RunRelease(heap, i, held);
        }
        NothingDone(step, s);
    }
    if !outgrown {
      StepIs(c, step, s, RunState(heap.layout, heap.sizes, held'));
      NotOutgrown(c, step, s, RunState(heap.layout, heap.sizes, held'));
    }
  }

  lemma StepIs(c: Setting, step: Step, s: RunState, t: RunState)
    requires c.g.Valid()
    requires match step
      case Request(data) => Requested(c, data, s, t)
      case Update(i, data) => Updated(i, data, s, t)
      case Release(i) => Released(i, s, t)
    ensures Stepped(c, step, s, t)
  {
  }

  lemma NothingDone(step: Step, s: RunState)
    ensures step.Update? && !(step.i < |s.held| && |step.data| == |s.held[step.i].data|) ==> Updated(step.i, step.data, s, s)
    ensures step.Release? && step.i >= |s.held| ==> Released(step.i, s, s)
  {
  }

  /**
    A run that did `done` of the steps, and stopped there only because the next one would need a further block;
    `trace` has the state before each step and the last one.
   */
  ghost predicate RanTo(c: Setting, steps: seq<Step>, trace: seq<RunState>, done: nat)
    requires c.g.Valid()
  {
    && done <= |steps| && |trace| == done + 1 && IsTrace(c, steps, trace)
    && (done < |steps| ==> Outgrown(steps[done], trace[done]))
  }

  /** So the run ends at the first step that outgrows the block, and at no other. */
  lemma RunsToFirst(c: Setting, steps: seq<Step>, trace: seq<RunState>, done: nat, n: nat)
    requires c.g.Valid() && RanTo(c, steps, trace, done) && n < |trace| && n < |steps|
    ensures Outgrown(steps[n], trace[n]) <==> n == done
  {
    hide Stepped, Outgrown;
    if n < done {
      NotOutgrown(c, steps[n], trace[n], trace[n + 1]);
    }
  }

  /**
    Any run of requests, updates and releases, in any order, up to the first request that would need a further block:
    at its end every object still held has exactly the bytes last stored in it, and the live objects are exactly those
    held.
   */
  method Run(heap: H.Heap, steps: seq<Step>) returns (held: seq<Held>, done: nat, ghost trace: seq<RunState>)
    requires heap.Valid() && heap.sizes == map[]
    modifies heap, heap.mem, heap.buddy.block, heap.buddy.pageTables, heap.buddy`live
    ensures heap.Valid() && Keeps(heap.sizes, heap.mem[..], held) && heap.buddy.geometry.Valid()
    ensures RanTo(Setting(heap.buddy.geometry, heap.home), steps, trace, done)
    ensures trace[0] == RunState(old(heap.layout), map[], [])
    ensures trace[done] == RunState(heap.layout, heap.sizes, held)
  {
    GeometryOf(heap);
    hide *;
    ghost var c := Setting(heap.buddy.geometry, heap.home);
    held, trace, done := [], [RunState(heap.layout, heap.sizes, [])], 0;
    NothingHeld(heap.mem[..]);
    TraceStarts(c, steps, trace[0]);
    while done < |steps|
      invariant done <= |steps| && heap.Valid() && Keeps(heap.sizes, heap.mem[..], held)
      invariant |trace| == done + 1 && IsTrace(c, steps, trace)
      invariant trace[0] == RunState(old(heap.layout), map[], [])
      invariant trace[done] == RunState(heap.layout, heap.sizes, held)
    {
      var outgrown;
      held, outgrown := RunStep(heap, steps[done], held);
      if outgrown {
        RanSoFar(c, steps, trace, done);
        return;
      }
      TraceGrows(c, steps, trace, RunState(heap.layout, heap.sizes, held));
      trace, done := trace + [RunState(heap.layout, heap.sizes, held)], done + 1;
    }
    RanSoFar(c, steps, trace, done);
  }

  lemma RanSoFar(c: Setting, steps: seq<Step>, trace: seq<RunState>, done: nat)
    requires c.g.Valid() && done <= |steps| && |trace| == done + 1 && IsTrace(c, steps, trace)
    requires done < |steps| ==> Outgrown(steps[done], trace[done])
    ensures RanTo(c, steps, trace, done)
  {
  }

  lemma NoPayloads(m: seq<byte>, m': seq<byte>)
    ensures H.KeptPayloads(m, m', map[])
  {
  }

  lemma NothingHeld(m: seq<byte>)
    ensures Keeps(map[], m, [])
  {
  }

  /**
    After any run, releasing what it holds empties the heap and returns the buddy bitmap, bit for bit,
    to what it was before the first request.
   */
  method RunAndRelease(heap: H.Heap, steps: seq<Step>) returns (held: seq<Held>, done: nat, ghost trace: seq<RunState>)
    requires heap.Valid() && heap.Empty()
    modifies heap, heap.mem, heap.buddy.block, heap.buddy.pageTables, heap.buddy`live
    ensures heap.buddy.geometry.Valid() && RanTo(Setting(heap.buddy.geometry, heap.home), steps, trace, done)
    ensures trace[0] == RunState(old(heap.layout), map[], []) && trace[done].held == held
    ensures heap.Valid() && heap.layout.A == [] && heap.layout.F == [] && heap.blockAt == 0 && heap.blockSize == 0
    ensures heap.buddy.live == heap.home == old(heap.buddy.live) && heap.buddy.block[..] == old(heap.buddy.block[..])
  {
    hide Keeps, BM.Represents, RanTo;
    ghost var before := heap.buddy.block[..];
    held, done, trace := Run(heap, steps);
    var left := held;
    while |left| > 0
      invariant heap.Valid() && Keeps(heap.sizes, heap.mem[..], left)
    {
      left := RunRelease(heap, 0, left);
    }
    NoneLeft(heap.sizes, heap.mem[..]);
    H.AllFreed(heap, before);
  }

  lemma NoneLeft(sizes: map<nat, nat>, m: seq<byte>)
    requires Keeps(sizes, m, [])
    ensures sizes.Keys == {}
  {
  }
}
