/** Byte-addressed memory, 32-bit words in it, and singly linked lists threaded through header words. */
module RawMemory {
  import opened Basics
  import opened Sequences

  const MEMORY_BASE: nat := 0x8000_0000
  const WORD_LIMIT: nat := 0x1_0000_0000

  /** A word at `a` lies in the memory. */
  predicate Addressable(m: seq<byte>, a: nat) {
    MEMORY_BASE <= a && a + 4 <= MEMORY_BASE + |m|
  }

  function Load(m: seq<byte>, a: nat): (v: nat)
    requires Addressable(m, a)
    ensures v < WORD_LIMIT
  {
    var i := a - MEMORY_BASE;
    m[i] as int + 0x100 * (m[i + 1] as int) + 0x1_0000 * (m[i + 2] as int) + 0x100_0000 * (m[i + 3] as int)
  }

  /** The memory with the word at `a` replaced; a word outside it or a value that is none changes nothing. */
  function Store(m: seq<byte>, a: nat, v: nat): (m': seq<byte>)
    ensures |m'| == |m|
  {
    if !Addressable(m, a) || v >= WORD_LIMIT then m
    else
      var i := a - MEMORY_BASE;
      m[i := v % 0x100][i + 1 := v / 0x100 % 0x100][i + 2 := v / 0x1_0000 % 0x100][i + 3 := v / 0x100_0000]
  }

  predicate Apart(a: nat, b: nat) {
    a + 4 <= b || b + 4 <= a
  }

  /** Words lie in memory with their lowest byte first. */
  lemma WordBytes(m: seq<byte>, a: nat)
    requires Addressable(m, a)
    ensures var v, i := Load(m, a), a - MEMORY_BASE;
      v % 0x100 == m[i] && v / 0x100 % 0x100 == m[i + 1] && v / 0x1_0000 % 0x100 == m[i + 2] && v / 0x100_0000 == m[i + 3]
  {
    var i := a - MEMORY_BASE;
    LowestByte(m[i], m[i + 1] as int + 0x100 * (m[i + 2] as int) + 0x1_0000 * (m[i + 3] as int));
    LowestByte(m[i + 1], m[i + 2] as int + 0x100 * (m[i + 3] as int));
    LowestByte(m[i + 2], m[i + 3] as int);
    ByteShifts(Load(m, a));
  }

  lemma LowestByte(b: byte, rest: nat)
    ensures (b as int + 0x100 * rest) % 0x100 == b && (b as int + 0x100 * rest) / 0x100 == rest
  {
  }

  lemma ByteShifts(v: nat)
    ensures v / 0x1_0000 == v / 0x100 / 0x100 && v / 0x100_0000 == v / 0x100 / 0x100 / 0x100
  {
  }

  lemma LoadStored(m: seq<byte>, a: nat, v: nat)
    requires Addressable(m, a) && v < WORD_LIMIT
    ensures Load(Store(m, a, v), a) == v
  {
    FourBytes(v);
  }

  lemma FourBytes(v: nat)
    requires v < WORD_LIMIT
    ensures v % 0x100 + 0x100 * (v / 0x100 % 0x100) + 0x1_0000 * (v / 0x1_0000 % 0x100) + 0x100_0000 * (v / 0x100_0000) == v
    ensures v / 0x100_0000 < 0x100
  {
    var a, b, c := v / 0x100, v / 0x1_0000, v / 0x100_0000;
    assert b == a / 0x100 && c == b / 0x100;
  }

  lemma LoadOther(m: seq<byte>, a: nat, v: nat, b: nat)
    requires Addressable(m, a) && v < WORD_LIMIT && Addressable(m, b) && Apart(a, b)
    ensures Load(Store(m, a, v), b) == Load(m, b)
  {
  }

  lemma StoreLocal(m: seq<byte>, a: nat, v: nat, x: nat)
    requires Addressable(m, a) && v < WORD_LIMIT && x < |m|
    requires MEMORY_BASE + x < a || a + 4 <= MEMORY_BASE + x
    ensures Store(m, a, v)[x] == m[x]
  {
  }

  /** Stores to words apart from each other commute, and a later store to a word hides an earlier one. */
  lemma StoresCommute(m: seq<byte>, a: nat, v: nat, b: nat, w: nat)
    requires Addressable(m, a) && Addressable(m, b) && Apart(a, b) && v < WORD_LIMIT && w < WORD_LIMIT
    ensures Store(Store(m, a, v), b, w) == Store(Store(m, b, w), a, v)
  {
  }

  lemma StoreHidden(m: seq<byte>, a: nat, v: nat, u: nat)
    requires Addressable(m, a) && v < WORD_LIMIT && u < WORD_LIMIT
    ensures Store(Store(m, a, v), a, u) == Store(m, a, u)
  {
  }

  // ---- lists ----

  /** The k-th link of a list: the root word, then the header words. */
  function Link(root: nat, s: seq<nat>, k: nat): nat
    requires k <= |s|
  {
    if k == 0 then root else s[k - 1]
  }

  /** What the k-th link holds: the next header, or null. */
  function Target(s: seq<nat>, k: nat): nat
    requires k <= |s|
  {
    if k < |s| then s[k] else 0
  }

  ghost predicate Spread(m: seq<byte>, root: nat, s: seq<nat>) {
    && (forall k {:trigger Link(root, s, k)} :: 0 <= k <= |s| ==> Addressable(m, Link(root, s, k)))
    && (forall i, k {:trigger Link(root, s, i), Link(root, s, k)} :: 0 <= i < k <= |s| ==>
         Apart(Link(root, s, i), Link(root, s, k)))
  }

  /** All links but `skip` hold their targets. */
  ghost predicate LinkedBut(m: seq<byte>, root: nat, s: seq<nat>, skip: int)
    requires Spread(m, root, s)
  {
    forall k {:trigger Link(root, s, k)} :: 0 <= k <= |s| && k != skip ==>
      Load(m, Link(root, s, k)) == Target(s, k)
  }

  /** The list that starts in the word at `root` has exactly the headers `s`. */
  ghost predicate Linked(m: seq<byte>, root: nat, s: seq<nat>) {
    Spread(m, root, s) && LinkedBut(m, root, s, -1)
  }

  /** `a` is apart from every link of the list. */
  ghost predicate Outside(a: nat, root: nat, s: seq<nat>) {
    forall k {:trigger Link(root, s, k)} :: 0 <= k <= |s| ==> Apart(a, Link(root, s, k))
  }

  lemma StoreOutside(m: seq<byte>, root: nat, s: seq<nat>, skip: int, a: nat, v: nat)
    requires Spread(m, root, s) && LinkedBut(m, root, s, skip)
    requires Addressable(m, a) && v < WORD_LIMIT && Outside(a, root, s)
    ensures Spread(Store(m, a, v), root, s) && LinkedBut(Store(m, a, v), root, s, skip)
  {
    hide Load, Store;
    forall k | 0 <= k <= |s| && k != skip
      ensures Load(Store(m, a, v), Link(root, s, k)) == Target(s, k)
    {
      LoadOther(m, a, v, Link(root, s, k));
    }
  }

  lemma StoreAtLink(m: seq<byte>, root: nat, s: seq<nat>, skip: int, k: nat, v: nat)
    requires Spread(m, root, s) && LinkedBut(m, root, s, skip)
    requires k <= |s| && v < WORD_LIMIT && (skip < 0 || skip == k)
    ensures var m' := Store(m, Link(root, s, k), v);
      Spread(m', root, s) && LinkedBut(m', root, s, k) && Load(m', Link(root, s, k)) == v
  {
    hide Load, Store;
    LoadStored(m, Link(root, s, k), v);
    forall i | 0 <= i <= |s| && i != k
      ensures Load(Store(m, Link(root, s, k), v), Link(root, s, i)) == Target(s, i)
    {
      LoadOther(m, Link(root, s, k), v, Link(root, s, i));
    }
  }

  /** `*x = *link; *link = x;` puts `x` behind link `k`. */
  lemma InsertLinked(m: seq<byte>, root: nat, s: seq<nat>, k: nat, x: nat)
    requires Linked(m, root, s) && k <= |s| && Target(s, k) < WORD_LIMIT
    requires Addressable(m, x) && x < WORD_LIMIT && Outside(x, root, s)
    ensures Addressable(Store(m, x, Target(s, k)), Link(root, s, k))
    ensures Linked(Store(Store(m, x, Target(s, k)), Link(root, s, k), x), root, Insert(s, k, x))
  {
    hide Load, Store;
    var m1 := Store(m, x, Target(s, k));
    StoreOutside(m, root, s, -1, x, Target(s, k));
    LoadStored(m, x, Target(s, k));
    var m2 := Store(m1, Link(root, s, k), x);
    StoreAtLink(m1, root, s, -1, k, x);
    LoadOther(m1, Link(root, s, k), x, x);
    var t := Insert(s, k, x);
    forall i | 0 <= i <= |t|
      ensures Link(root, t, i) == if i <= k then Link(root, s, i) else if i == k + 1 then x else Link(root, s, i - 1)
      ensures Target(t, i) == if i < k then Target(s, i) else if i == k then x else Target(s, i - 1)
      ensures Addressable(m2, Link(root, t, i)) && Load(m2, Link(root, t, i)) == Target(t, i)
    {
      assert Link(root, t, i) == if i <= k then Link(root, s, i) else if i == k + 1 then x else Link(root, s, i - 1);
    }
    forall i, j | 0 <= i < j <= |t|
      ensures Apart(Link(root, t, i), Link(root, t, j))
    {
      if i != k + 1 && j != k + 1 {
        var i', j' := if i <= k then i else i - 1, if j <= k then j else j - 1;
        assert Link(root, t, i) == Link(root, s, i') && Link(root, t, j) == Link(root, s, j');
      } else if j == k + 1 {
        assert Link(root, t, i) == Link(root, s, i) && Link(root, t, j) == x;
      } else {
        assert Link(root, t, i) == x && Link(root, t, j) == Link(root, s, j - 1);
      }
    }
  }

  /** `*link = next;` drops the header behind link `k`, which may hold anything. */
  lemma RemoveLinked(m: seq<byte>, root: nat, s: seq<nat>, k: nat)
    requires Spread(m, root, s) && LinkedBut(m, root, s, k + 1) && k < |s| && Target(s, k + 1) < WORD_LIMIT
    ensures Linked(Store(m, Link(root, s, k), Target(s, k + 1)), root, Remove(s, k))
  {
    hide Load, Store;
    LoadStored(m, Link(root, s, k), Target(s, k + 1));
    var m', t := Store(m, Link(root, s, k), Target(s, k + 1)), Remove(s, k);
    forall i | 0 <= i <= |t|
      ensures Link(root, t, i) == if i <= k then Link(root, s, i) else Link(root, s, i + 1)
      ensures Target(t, i) == if i < k then Target(s, i) else Target(s, i + 1)
      ensures Addressable(m', Link(root, t, i)) && Load(m', Link(root, t, i)) == Target(t, i)
    {
      var i' := if i <= k then i else i + 1;
      assert Link(root, t, i) == Link(root, s, i');
      if i != k {
        LoadOther(m, Link(root, s, k), Target(s, k + 1), Link(root, s, i'));
      }
    }
    forall i, j | 0 <= i < j <= |t|
      ensures Apart(Link(root, t, i), Link(root, t, j))
    {
      assert Link(root, t, i) == if i <= k then Link(root, s, i) else Link(root, s, i + 1);
      assert Link(root, t, j) == if j <= k then Link(root, s, j) else Link(root, s, j + 1);
    }
  }

  /** `*y = next; *link = y;` puts `y` in the place of the header behind link `k`, which may hold anything. */
  lemma ReplaceLinked(m: seq<byte>, root: nat, s: seq<nat>, k: nat, y: nat)
    requires Spread(m, root, s) && LinkedBut(m, root, s, k + 1) && k < |s| && Target(s, k + 1) < WORD_LIMIT
    requires Addressable(m, y) && y < WORD_LIMIT
    requires forall i :: 0 <= i <= |s| && i != k + 1 ==> Apart(y, Link(root, s, i))
    ensures Addressable(Store(m, y, Target(s, k + 1)), Link(root, s, k))
    ensures Linked(Store(Store(m, y, Target(s, k + 1)), Link(root, s, k), y), root, s[k := y])
  {
    hide Load, Store;
    var v := Target(s, k + 1);
    var m1 := Store(m, y, v);
    LoadStored(m, y, v);
    var m2 := Store(m1, Link(root, s, k), y);
    LoadStored(m1, Link(root, s, k), y);
    LoadOther(m1, Link(root, s, k), y, y);
    var t := s[k := y];
    forall i | 0 <= i <= |t|
      ensures Link(root, t, i) == if i == k + 1 then y else Link(root, s, i)
      ensures Target(t, i) == if i == k then y else Target(s, i)
      ensures Load(m2, Link(root, t, i)) == Target(t, i)
    {
      if i != k && i != k + 1 {
        LoadOther(m, y, v, Link(root, s, i));
        LoadOther(m1, Link(root, s, k), y, Link(root, s, i));
      }
    }
  }
}
