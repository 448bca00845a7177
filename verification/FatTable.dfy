/** The file allocation table: 12-bit entries, two of them in three bytes. */
module FatTable {
  import opened Basics

  type entry = e: int | 0 <= e < 4096

  const END_OF_CHAIN: nat := 0xFF8

  /** The 16-bit word read at byte `i`. */
  function Word16(fat: nat -> byte, i: nat): nat {
    fat(i) as int + 0x100 * (fat(i + 1) as int)
  }

  /** `fat_next_cluster`: byte offset `k * 3 / 2`, low 12 bits for even clusters and high 12 bits for odd ones. */
  function NextCluster(fat: nat -> byte, k: nat): (next: nat)
    ensures next < 0x1000
  {
    var idx := k * 3 / 2;
    if k % 2 == 0 then Word16(fat, idx) % 0x1000 else Word16(fat, idx) / 0x10
  }

  /** The decoder of the first boot stage: quotient and remainder of `3 * k` by 2, parity taken from the remainder. */
  function NextClusterStage1(fat: nat -> byte, k: nat): nat {
    var product := k * 3;
    var quotient, remainder := product / 2, product % 2;
    if remainder == 0 then Word16(fat, quotient) % 0x1000 else Word16(fat, quotient) / 0x10
  }

  lemma Stage1Agrees(fat: nat -> byte, k: nat)
    ensures NextClusterStage1(fat, k) == NextCluster(fat, k)
  {
    TripleParity(k / 2, k % 2);
  }

  lemma TripleParity(q: nat, r: nat)
    requires r < 2
    ensures (2 * q + r) * 3 % 2 == r
  {
    var p := 3 * q + r;
    assert (2 * q + r) * 3 == 2 * p + r;
  }

  /** Packing of a table as the FAT specification lays it out; a last unpaired entry leaves half a byte unused. */
  function Pack(entries: seq<entry>): seq<byte> {
    if |entries| == 0 then []
    else if |entries| == 1 then [entries[0] % 0x100, entries[0] / 0x100]
    else
      [entries[0] % 0x100, entries[0] / 0x100 + 0x10 * (entries[1] % 0x10), entries[1] / 0x10] + Pack(entries[2..])
  }

  /** The bytes `s` lie at offset `at`. */
  ghost predicate Stored(fat: nat -> byte, at: nat, s: seq<byte>) {
    forall i :: 0 <= i < |s| ==> fat(at + i) == s[i]
  }

  /** The two entries held by the three bytes at offset `3 * h`. */
  lemma UnpackPair(fat: nat -> byte, h: nat, e: entry, f: entry)
    requires fat(3 * h) == e % 0x100
    ensures fat(3 * h + 1) % 0x10 == e / 0x100 ==> NextCluster(fat, 2 * h) == e
    ensures fat(3 * h + 1) == e / 0x100 + 0x10 * (f % 0x10) && fat(3 * h + 2) == f / 0x10 ==>
      NextCluster(fat, 2 * h) == e && NextCluster(fat, 2 * h + 1) == f
  {
    PairIndex(h);
    HighEntry(e, f);
    if fat(3 * h + 1) % 0x10 == e / 0x100 {
      LowEntry(e, fat(3 * h + 1));
    }
  }

  lemma PairIndex(h: nat)
    ensures 2 * h * 3 / 2 == 3 * h && 2 * h % 2 == 0
    ensures (2 * h + 1) * 3 / 2 == 3 * h + 1 && (2 * h + 1) % 2 == 1
  {
  }

  lemma LowEntry(e: entry, b: byte)
    requires b % 0x10 == e / 0x100
    ensures (e % 0x100 + 0x100 * (b as int)) % 0x1000 == e
  {
    var q := b as int / 0x10;
    assert e % 0x100 + 0x100 * (b as int) == e + 0x1000 * q;
  }

  lemma HighEntry(e: entry, f: entry)
    ensures (e / 0x100 + 0x10 * (f % 0x10)) % 0x10 == e / 0x100
    ensures (e / 0x100 + 0x10 * (f % 0x10) + 0x100 * (f / 0x10)) / 0x10 == f
  {
    var h: nat := e / 0x100;
    assert h < 0x10 && h + 0x10 * (f % 0x10) + 0x100 * (f / 0x10) == h + 0x10 * f;
  }

  /** Every entry of every packed table is recovered; the table starts with entry `2 * h`. */
  lemma {:induction false} UnpackFrom(fat: nat -> byte, entries: seq<entry>, k: nat, h: nat)
    requires k < |entries| && Stored(fat, 3 * h, Pack(entries))
    ensures NextCluster(fat, 2 * h + k) == entries[k]
    decreases |entries|
  {
    hide NextCluster;
    var s := Pack(entries);
    assert fat(3 * h + 0) == s[0] && fat(3 * h + 1) == s[1];
    if |entries| == 1 {
      UnpackPair(fat, h, entries[0], 0);
    } else {
      assert fat(3 * h + 2) == s[2];
      UnpackPair(fat, h, entries[0], entries[1]);
      if k >= 2 {
        PackTail(entries);
        RestStored(fat, s, 3 * h);
        UnpackFrom(fat, entries[2..], k - 2, h + 1);
      }
    }
  }

  lemma PackTail(entries: seq<entry>)
    requires |entries| >= 2
    ensures |Pack(entries)| >= 3 && Pack(entries)[3..] == Pack(entries[2..])
  {
  }

  lemma RestStored(fat: nat -> byte, s: seq<byte>, at: nat)
    requires |s| >= 3 && Stored(fat, at, s)
    ensures Stored(fat, at + 3, s[3..])
  {
    forall i | 0 <= i < |s[3..]|
      ensures fat(at + 3 + i) == s[3..][i]
    {
      var k := i + 3;
      assert fat(at + k) == s[k];
      assert at + 3 + i == at + k;
    }
  }

  lemma UnpackEntry(fat: nat -> byte, entries: seq<entry>, k: nat)
    requires k < |entries| && Stored(fat, 0, Pack(entries))
    ensures NextCluster(fat, k) == entries[k]
  {
    hide *;
    UnpackFrom(fat, entries, k, 0);
  }
}
