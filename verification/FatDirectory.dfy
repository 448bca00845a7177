/** Directory records, names, and what a path resolves to on a volume. */
module FatDirectory {
  import opened Basics
  import opened FatTable
  import opened FatReader

  const RECORD_SIZE: nat := 32
  const NAME_SIZE: nat := 11
  const SLASH: byte := 47
  const DOT: byte := 46
  const SPACE: byte := 32

  /** The fields of a 32-byte directory record the driver uses. */
  datatype DirEntry = DirEntry(name: seq<byte>, attribute: byte, firstCluster: nat, size: nat) {
    predicate IsDirectory() {
      attribute / 0x10 % 2 == 1
    }
  }

  function Word32(s: seq<byte>, i: nat): nat
    requires i + 4 <= |s|
  {
    s[i] as int + 0x100 * (s[i + 1] as int) + 0x1_0000 * (s[i + 2] as int) + 0x100_0000 * (s[i + 3] as int)
  }

  function Half(s: seq<byte>, i: nat): nat
    requires i + 2 <= |s|
  {
    s[i] as int + 0x100 * (s[i + 1] as int)
  }

  /** A record as the packed structure lays it out. */
  function Decode(s: seq<byte>): DirEntry
    requires |s| == RECORD_SIZE
  {
    DirEntry(s[..NAME_SIZE], s[11], Half(s, 26) + 0x1_0000 * Half(s, 20), Word32(s, 28))
  }

  /** Record `r` of a directory. */
  ghost function RecordAt(v: Volume, src: Source, r: nat): (s: seq<byte>)
    requires v.clusterSectors > 0 && HasRecord(v, src, r)
    ensures |s| == RECORD_SIZE
  {
    seq<byte>(RECORD_SIZE, (i: nat) requires 0 <= i < RECORD_SIZE =>
      RecordByte(v, src, r, i);
      v.ByteAt(src, RECORD_SIZE * r + i))
  }

  /** The sector of record `r`, which never straddles two. */
  ghost predicate HasRecord(v: Volume, src: Source, r: nat)
    requires v.clusterSectors > 0
  {
    v.HasSector(src, RECORD_SIZE * r / SECTOR_SIZE)
  }

  lemma RecordByte(v: Volume, src: Source, r: nat, i: nat)
    requires v.clusterSectors > 0 && HasRecord(v, src, r) && i < RECORD_SIZE
    ensures v.HasSector(src, (RECORD_SIZE * r + i) / SECTOR_SIZE)
  {
    assert (RECORD_SIZE * r + i) / SECTOR_SIZE == RECORD_SIZE * r / SECTOR_SIZE;
  }

  /** A directory as it is scanned: where its sectors come from, and where reading ends. */
  datatype Directory = Directory(src: Source, limit: nat)

  ghost predicate Listed(v: Volume, dir: Directory, r: nat)
    requires v.clusterSectors > 0
  {
    RECORD_SIZE * (r + 1) <= dir.limit && HasRecord(v, dir.src, r)
  }

  ghost predicate Named(v: Volume, dir: Directory, r: nat, name: seq<byte>)
    requires v.clusterSectors > 0
  {
    Listed(v, dir, r) && Decode(RecordAt(v, dir.src, r)).name == name
  }

  /** Record `r` is the first of that name. */
  ghost predicate FoundAt(v: Volume, dir: Directory, name: seq<byte>, r: nat)
    requires v.clusterSectors > 0
  {
    Named(v, dir, r, name) && forall q :: 0 <= q < r ==> !Named(v, dir, q, name)
  }

  // ---- names ----

  function Upper(c: byte): byte {
    if 97 <= c <= 122 then c - 32 else c
  }

  /** Index of the first `c`, or the length. */
  function IndexOf(s: seq<byte>, c: byte): (i: nat)
    ensures i <= |s| && (i < |s| ==> s[i] == c)
    ensures forall k :: 0 <= k < i ==> s[k] != c
  {
    if s == [] || s[0] == c then 0 else
      var i := IndexOf(s[1..], c);
      assert forall k :: 1 <= k < i + 1 ==> s[k] == s[1..][k - 1];
      i + 1
  }

  /** Names the driver converts completely: without extension, or with at least three characters in it. */
  predicate Convertible(name: seq<byte>) {
    var dot := IndexOf(name, DOT);
    dot == |name| || dot + 3 < |name|
  }

  function FatNameByte(name: seq<byte>, i: nat): byte
    requires Convertible(name) && i < NAME_SIZE
  {
    var dot := IndexOf(name, DOT);
    if i < 8 then (if i < dot then Upper(name[i]) else SPACE)
    else if dot < |name| then Upper(name[dot + 1 + (i - 8)]) else SPACE
  }

  /** The 11 bytes of a name in a record: up to eight characters padded with spaces, then the extension. */
  function FatName(name: seq<byte>): (s: seq<byte>)
    requires Convertible(name)
    ensures |s| == NAME_SIZE
  {
    seq<byte>(NAME_SIZE, (i: nat) requires i < NAME_SIZE => FatNameByte(name, i))
  }

  /** A name of up to eight characters, alone or with an extension of three, none of them a space. */
  predicate Proper(name: seq<byte>) {
    var dot := IndexOf(name, DOT);
    && dot <= 8 && (dot == |name| || |name| == dot + 4)
    && forall i :: 0 <= i < |name| ==> name[i] != SPACE
  }

  /** Equal but for the case of letters. */
  predicate SameLetters(a: seq<byte>, b: seq<byte>) {
    |a| == |b| && forall i :: 0 <= i < |a| ==> Upper(a[i]) == Upper(b[i])
  }

  /** Two proper names select the same record exactly when they differ in the case of letters only. */
  lemma FatNameSame(a: seq<byte>, b: seq<byte>)
    requires Proper(a) && Proper(b)
    ensures FatName(a) == FatName(b) <==> SameLetters(a, b)
  {
    var i, j := IndexOf(a, DOT), IndexOf(b, DOT);
    var s, t := FatName(a), FatName(b);
    if SameLetters(a, b) {
      assert i == j by { SameDot(a, b); }
      assert forall k :: 0 <= k < NAME_SIZE ==> s[k] == t[k];
    }
    if s == t {
      assert i == j by { NameLength(a, b); NameLength(b, a); }
      assert s[8] == t[8];
      assert |a| == |b|;
      forall k | 0 <= k < |a|
        ensures Upper(a[k]) == Upper(b[k])
      {
        if k != i {
          var q := if k < i then k else 8 + (k - i - 1);
          assert s[q] == Upper(a[k]) && t[q] == Upper(b[k]);
        }
      }
    }
  }

  lemma SameDot(a: seq<byte>, b: seq<byte>)
    requires SameLetters(a, b)
    ensures IndexOf(a, DOT) == IndexOf(b, DOT)
  {
    var i, j := IndexOf(a, DOT), IndexOf(b, DOT);
    assert i < |a| ==> Upper(a[i]) == Upper(b[i]);
    assert j < |b| ==> Upper(a[j]) == Upper(b[j]);
  }

  /** The padding tells where the part in front of the dot ends. */
  lemma PaddedFrom(name: seq<byte>, k: nat)
    requires Proper(name) && k < 8
    ensures FatName(name)[k] == SPACE <==> k >= IndexOf(name, DOT)
  {
  }

  lemma NameLength(a: seq<byte>, b: seq<byte>)
    requires Proper(a) && Proper(b) && FatName(a) == FatName(b)
    ensures IndexOf(a, DOT) <= IndexOf(b, DOT)
  {
    var j := IndexOf(b, DOT);
    if j < 8 {
      PaddedFrom(a, j);
      PaddedFrom(b, j);
    }
  }

  // ---- paths ----

  /** The names between the slashes; a trailing slash adds none. */
  function Components(path: seq<byte>): seq<seq<byte>>
    decreases |path|
  {
    if path == [] then [] else
      var i := IndexOf(path, SLASH);
      if i == |path| then [path] else [path[..i]] + Components(path[i + 1..])
  }

  function WithoutLeadingSlash(path: seq<byte>): seq<byte> {
    if |path| > 0 && path[0] == SLASH then path[1..] else path
  }

  /** The directory an entry opens as, given its chain. */
  function AsDirectory(v: Volume, e: DirEntry, clusters: seq<nat>): Directory {
    var capacity := |clusters| * v.clusterSectors * SECTOR_SIZE;
    Directory(Chained(clusters), if (!e.IsDirectory() || e.size != 0) && e.size < capacity then e.size else capacity)
  }

  /** The clusters of an entry: a finite chain, or none for an empty file, whose first cluster is not looked at. */
  ghost predicate HasClusters(v: Volume, e: DirEntry, clusters: seq<nat>) {
    if !e.IsDirectory() && e.size == 0 then clusters == [] else v.IsChain(e.firstCluster, clusters)
  }

  lemma ClustersOnce(v: Volume, e: DirEntry, c: seq<nat>, d: seq<nat>)
    requires HasClusters(v, e, c) && HasClusters(v, e, d)
    ensures c == d
  {
    if e.IsDirectory() || e.size != 0 {
      ChainOnce(v, e.firstCluster, c, d);
    }
  }

  /** Every name found along the path is that of an empty file or starts a finite chain of clusters. */
  ghost predicate WellFormedAlong(v: Volume, dir: Directory, names: seq<seq<byte>>)
    requires v.clusterSectors > 0
    decreases |names|
  {
    names == [] ||
    (Convertible(names[0]) &&
     forall r: nat :: FoundAt(v, dir, FatName(names[0]), r) ==>
       exists clusters :: HasClusters(v, Decode(RecordAt(v, dir.src, r)), clusters) &&
         WellFormedAlong(v, AsDirectory(v, Decode(RecordAt(v, dir.src, r)), clusters), names[1..]))
  }

  /** The path leads to the entry `e`: each name is looked up in the directory the previous one led to. */
  ghost predicate Resolves(v: Volume, dir: Directory, names: seq<seq<byte>>, e: DirEntry)
    requires v.clusterSectors > 0
    decreases |names|, 0
  {
    && names != [] && Convertible(names[0])
    && (exists r: nat :: FoundAt(v, dir, FatName(names[0]), r) && LeadsTo(v, dir, r, names[1..], e))
  }

  ghost predicate LeadsTo(v: Volume, dir: Directory, r: nat, names: seq<seq<byte>>, e: DirEntry)
    requires v.clusterSectors > 0 && HasRecord(v, dir.src, r)
    decreases |names|, 1
  {
    var found := Decode(RecordAt(v, dir.src, r));
    if names == [] then found == e
    else exists clusters :: HasClusters(v, found, clusters) && Resolves(v, AsDirectory(v, found, clusters), names, e)
  }

  /** Where the scan for a name ends: behind the record found, or at the end of the directory. */
  ghost function LookupEnd(v: Volume, dir: Directory, name: seq<byte>): nat
    requires v.clusterSectors > 0
  {
    if exists r: nat :: FoundAt(v, dir, name, r) then
      var r: nat :| FoundAt(v, dir, name, r);
      RECORD_SIZE * (r + 1)
    else dir.limit
  }

  /**
    The sectors of the root directory as the driver sees them after a scan that ended at `end` and a rewind:
    the sector then in the buffer stands in the place of the first.
   */
  function Rewound(v: Volume, src: Source, end: nat): Source
    requires v.clusterSectors > 0 && src.Flat?
  {
    Flat(src.lba, v.SectorLba(src, end / SECTOR_SIZE))
  }

  /**
    A rewound root directory reads as the stored one exactly if the sector where the scan ended equals the first:
    always if the scan stayed in the first sector, and otherwise only if the disk holds the same bytes twice.
   */
  lemma RewoundAsStored(v: Volume, lba: nat, end: nat)
    requires v.clusterSectors > 0
    ensures end < SECTOR_SIZE ==> Rewound(v, Flat(lba, lba), end) == Flat(lba, lba)
    ensures (forall i: nat :: v.ByteAt(Rewound(v, Flat(lba, lba), end), i) == v.ByteAt(Flat(lba, lba), i)) <==>
      v.disk(lba + end / SECTOR_SIZE) == v.disk(lba)
  {
    var src, seen := Flat(lba, lba), Rewound(v, Flat(lba, lba), end);
    assert v.SectorLba(src, 0) == lba && v.SectorLba(seen, 0) == lba + end / SECTOR_SIZE;
    if forall i: nat :: v.ByteAt(seen, i) == v.ByteAt(src, i) {
      forall i: nat | i < SECTOR_SIZE
        ensures v.disk(lba + end / SECTOR_SIZE)[i] == v.disk(lba)[i]
      {
        assert v.ByteAt(seen, i) == v.ByteAt(src, i);
      }
    }
  }

  lemma LookupEnds(v: Volume, dir: Directory, name: seq<byte>)
    requires v.clusterSectors > 0
    ensures forall r: nat :: FoundAt(v, dir, name, r) ==> LookupEnd(v, dir, name) == RECORD_SIZE * (r + 1)
    ensures (forall r: nat :: !FoundAt(v, dir, name, r)) ==> LookupEnd(v, dir, name) == dir.limit
  {
    forall r: nat, q: nat | FoundAt(v, dir, name, r) && FoundAt(v, dir, name, q)
      ensures r == q
    {
      FoundOnce(v, dir, name, r, q);
    }
  }

  lemma FoundOnce(v: Volume, dir: Directory, name: seq<byte>, r: nat, r': nat)
    requires v.clusterSectors > 0 && FoundAt(v, dir, name, r) && FoundAt(v, dir, name, r')
    ensures r == r'
  {
  }

  /** A cluster starts at most one chain. */
  lemma {:induction false} ChainOnce(v: Volume, first: nat, c: seq<nat>, d: seq<nat>)
    requires v.IsChain(first, c) && v.IsChain(first, d)
    ensures c == d
    decreases |c|
  {
    if |c| == 1 && |d| == 1 {
      assert c == [first] && d == [first];
    } else if |c| == 1 {
      ChainTail(v, first, d);
      assert false;
    } else if |d| == 1 {
      ChainTail(v, first, c);
      assert false;
    } else {
      ChainTail(v, first, c);
      ChainTail(v, first, d);
      ChainOnce(v, c[1], c[1..], d[1..]);
      assert c == [c[0]] + c[1..] && d == [d[0]] + d[1..];
    }
  }

  lemma ChainTail(v: Volume, first: nat, c: seq<nat>)
    requires v.IsChain(first, c) && |c| > 1
    ensures v.IsChain(c[1], c[1..]) && c[1] == NextCluster(v.fat, first) < END_OF_CHAIN
  {
  }
}
