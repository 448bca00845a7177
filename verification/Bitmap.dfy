/** Powers of two and single bits inside an array of bytes. */
module Bitmap {

  function Pow2(k: nat): (p: nat)
    ensures p >= 1
  {
    if k == 0 then 1 else 2 * Pow2(k - 1)
  }

  lemma {:induction false} Pow2Add(a: nat, b: nat)
    ensures Pow2(a + b) == Pow2(a) * Pow2(b)
  {
    if a == 0 {
    } else {
      Pow2Add(a - 1, b);
    }
  }

  lemma {:induction false} Pow2Monotone(a: nat, b: nat)
    requires a <= b
    ensures Pow2(a) <= Pow2(b)
  {
    if a < b {
      Pow2Monotone(a, b - 1);
    }
  }

  /** Bit `k` of a byte. */
  predicate ByteBit(b: bv8, k: nat)
    requires k < 8
  {
    b & ((1 as bv8) << k) != 0
  }

  /** The byte with its bit `k` replaced by `val`, as `(b & ~(1 << k)) | (val << k)` computes it. */
  function WithBit(b: bv8, k: nat, val: bool): bv8
    requires k < 8
  {
    (b & !((1 as bv8) << k)) | ((if val then 1 as bv8 else 0) << k)
  }

  /** Bit `k` is worth `2^k`. */
  lemma BitWorth(k: nat)
    requires k < 8
    ensures WithBit(0, k, true) as int == Pow2(k) && ByteBit(WithBit(0, k, true), k)
  {
    assert Pow2(1) == 2 && Pow2(2) == 4 && Pow2(3) == 8 && Pow2(4) == 16 && Pow2(5) == 32 && Pow2(6) == 64 && Pow2(7) == 128;
    if k == 0 {} else if k == 1 {} else if k == 2 {} else if k == 3 {}
    else if k == 4 {} else if k == 5 {} else if k == 6 {} else {}
  }

  lemma MasksDisjoint(k: nat, j: nat)
    requires k < 8 && j < 8
    ensures (1 as bv8) << k != 0
    ensures k != j ==> ((1 as bv8) << k) & ((1 as bv8) << j) == 0
  {
    if k == 0 {} else if k == 1 {} else if k == 2 {} else if k == 3 {}
    else if k == 4 {} else if k == 5 {} else if k == 6 {} else {}
    if j == 0 {} else if j == 1 {} else if j == 2 {} else if j == 3 {}
    else if j == 4 {} else if j == 5 {} else if j == 6 {} else {}
  }

  lemma MaskedOther(b: bv8, p: bv8, q: bv8, v: bv8)
    requires p & q == 0 && (v == 0 || v == p)
    ensures ((b & !p) | v) & q == b & q
  {
  }

  lemma WithBitRead(b: bv8, k: nat, val: bool, j: nat)
    requires k < 8 && j < 8
    ensures ByteBit(WithBit(b, k, val), j) <==> if j == k then val else ByteBit(b, j)
  {
    MasksDisjoint(k, j);
    var p, q := (1 as bv8) << k, (1 as bv8) << j;
    var v := (if val then 1 as bv8 else 0) << k;
    assert v == if val then p else 0;
    if j != k {
      MaskedOther(b, p, q, v);
    } else {
      MaskedSame(b, p, v);
    }
  }

  lemma MaskedSame(b: bv8, p: bv8, v: bv8)
    requires v == 0 || v == p
    ensures ((b & !p) | v) & p == v
  {
  }

  lemma ByteFromBits(a: bv8, b: bv8)
    requires forall k: nat :: k < 8 ==> (ByteBit(a, k) <==> ByteBit(b, k))
    ensures a == b
  {
    assert ByteBit(a, 0) <==> ByteBit(b, 0);
    assert ByteBit(a, 1) <==> ByteBit(b, 1);
    assert ByteBit(a, 2) <==> ByteBit(b, 2);
    assert ByteBit(a, 3) <==> ByteBit(b, 3);
    assert ByteBit(a, 4) <==> ByteBit(b, 4);
    assert ByteBit(a, 5) <==> ByteBit(b, 5);
    assert ByteBit(a, 6) <==> ByteBit(b, 6);
    assert ByteBit(a, 7) <==> ByteBit(b, 7);
  }

  /** Bit `i` of a byte array: byte `i >> 3`, position `i & 7`. */
  predicate GetBit(s: seq<bv8>, i: nat)
    requires i < 8 * |s|
  {
    ByteBit(s[i / 8], i % 8)
  }

  /** The byte array with bit `i` replaced by `val`. */
  function SetBit(s: seq<bv8>, i: nat, val: bool): (t: seq<bv8>)
    requires i < 8 * |s|
    ensures |t| == |s|
  {
    s[i / 8 := WithBit(s[i / 8], i % 8, val)]
  }

  /** Writing one bit changes that bit and no other. */
  lemma SetBitRead(s: seq<bv8>, i: nat, val: bool, j: nat)
    requires i < 8 * |s| && j < 8 * |s|
    ensures GetBit(SetBit(s, i, val), j) <==> if j == i then val else GetBit(s, j)
  {
    assert i / 8 == j / 8 && i % 8 == j % 8 ==> i == j;
    if i / 8 == j / 8 {
      WithBitRead(s[i / 8], i % 8, val, j % 8);
    }
  }

  /** Byte arrays that agree on every bit are equal. */
  lemma BytesFromBits(s: seq<bv8>, t: seq<bv8>)
    requires |s| == |t|
    requires forall i: nat :: i < 8 * |s| ==> (GetBit(s, i) <==> GetBit(t, i))
    ensures s == t
  {
    forall j | 0 <= j < |s|
      ensures s[j] == t[j]
    {
      forall k: nat | k < 8
        ensures ByteBit(s[j], k) <==> ByteBit(t[j], k)
      {
        var i := 8 * j + k;
        assert i / 8 == j && i % 8 == k;
        assert GetBit(s, i) <==> GetBit(t, i);
      }
      ByteFromBits(s[j], t[j]);
    }
  }
}
