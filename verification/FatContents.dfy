/** The bytes of a file in the order of its clusters, and reading a file by its path. */
module FatContents {
  import opened Basics
  import opened FatTable
  import opened FatReader
  import opened FatDirectory
  import opened FatFiles
  import opened FatHandles
  import opened FatMount

  /** The first `n` sectors from `lba` on, one behind the other. */
  function Sectors(v: Volume, lba: nat, n: nat): (s: seq<byte>)
    ensures |s| == 512 * n
  {
    if n == 0 then [] else Sectors(v, lba, n - 1) + v.disk(lba + n - 1)
  }

  predicate DataClusters(clusters: seq<nat>) {
    forall q :: 0 <= q < |clusters| ==> 2 <= clusters[q]
  }

  /** Cluster 2 is the first one behind the root directory. */
  function FirstOf(v: Volume, cluster: nat): nat
    requires 2 <= cluster
  {
    var before: nat := cluster - 2;
    v.dataLba + before * v.clusterSectors
  }

  /** The bytes of the clusters of a chain, in the order of the chain. */
  function Contents(v: Volume, clusters: seq<nat>): seq<byte>
    requires DataClusters(clusters)
  {
    if clusters == [] then []
    else
      var n := |clusters| - 1;
      Contents(v, clusters[..n]) + Sectors(v, FirstOf(v, clusters[n]), v.clusterSectors)
  }

  lemma {:induction false} SectorsAt(v: Volume, lba: nat, n: nat, j: nat, r: nat)
    requires j < n && r < 512
    ensures 512 * j + r < 512 * n && Sectors(v, lba, n)[512 * j + r] == v.disk(lba + j)[r]
    decreases n
  {
    if j < n - 1 {
      SectorsAt(v, lba, n - 1, j, r);
    }
  }

  lemma {:induction false} ContentsLength(v: Volume, clusters: seq<nat>)
    requires DataClusters(clusters)
    ensures |Contents(v, clusters)| == 512 * (|clusters| * v.clusterSectors)
    decreases |clusters|
  {
    if clusters != [] {
      var front := clusters[..|clusters| - 1];
      ContentsLength(v, front);
      OneMoreCluster(|front|, v.clusterSectors);
    }
  }

  lemma OneMoreCluster(n: nat, w: nat)
    ensures (n + 1) * w == n * w + w
  {
  }

  lemma {:induction false} ContentsAt(v: Volume, clusters: seq<nat>, q: nat, j: nat, r: nat)
    requires DataClusters(clusters) && q < |clusters| && j < v.clusterSectors && r < 512
    ensures var i := 512 * (q * v.clusterSectors + j) + r;
      i < |Contents(v, clusters)| && Contents(v, clusters)[i] == v.disk(FirstOf(v, clusters[q]) + j)[r]
    decreases |clusters|
  {
    var n := |clusters| - 1;
    var front, last := clusters[..n], Sectors(v, FirstOf(v, clusters[n]), v.clusterSectors);
    assert Contents(v, clusters) == Contents(v, front) + last;
    hide Contents, Sectors, FirstOf;
    ContentsLength(v, front);
    if q < n {
      ContentsAt(v, front, q, j, r);
    } else {
      SectorsAt(v, FirstOf(v, clusters[n]), v.clusterSectors, j, r);
    }
  }

  /** Sector addresses of the chain fit in 32 bits. */
  ghost predicate InRange(v: Volume, clusters: seq<nat>) {
    forall q :: 0 <= q < |clusters| ==>
      2 <= clusters[q] && v.dataLba + (clusters[q] - 1) * v.clusterSectors <= 0x1_0000_0000
  }

  /** Sector `k` of a chain, counted in the sectors of its clusters. */
  lemma SectorOfChain(v: Volume, clusters: seq<nat>, k: nat)
    requires v.clusterSectors > 0 && InRange(v, clusters) && k < |clusters| * v.clusterSectors
    ensures var q, j := k / v.clusterSectors, k % v.clusterSectors;
      && q < |clusters| && 2 <= clusters[q] && j < v.clusterSectors && k == q * v.clusterSectors + j
      && v.HasSector(Chained(clusters), k) && v.SectorLba(Chained(clusters), k) == FirstOf(v, clusters[q]) + j
  {
    v.SectorInChain(Chained(clusters), k);
    var q, j := k / v.clusterSectors, k % v.clusterSectors;
    assert q < |clusters| && k == q * v.clusterSectors + j && v.HasSector(Chained(clusters), k);
    assert v.SectorLba(Chained(clusters), k) == (v.ClusterToLba(clusters[q]) + j) % UINT32;
    hide Volume.SectorLba, Volume.HasSector, Volume.ClusterToLba, Volume.ClusterIndex, Volume.SectorIndex;
    SectorOfCluster(v, clusters, q, j);
  }

  lemma SectorOfCluster(v: Volume, clusters: seq<nat>, q: nat, j: nat)
    requires v.clusterSectors > 0 && InRange(v, clusters) && q < |clusters| && j < v.clusterSectors
    ensures 2 <= clusters[q] && (v.ClusterToLba(clusters[q]) + j) % UINT32 == FirstOf(v, clusters[q]) + j
  {
    assert 2 <= clusters[q] && v.dataLba + (clusters[q] - 1) * v.clusterSectors <= UINT32;
    ClusterStart(v, clusters[q]);
    hide InRange, Volume.ClusterToLba;
  }

  /** What the driver takes for the bytes of a file are the bytes of its clusters, in order. */
  lemma BytesAreContents(v: Volume, clusters: seq<nat>, i: nat)
    requires v.clusterSectors > 0 && InRange(v, clusters) && DataClusters(clusters) && i < |Contents(v, clusters)|
    ensures v.HasSector(Chained(clusters), i / 512) && v.ByteAt(Chained(clusters), i) == Contents(v, clusters)[i]
  {
    hide Contents;
    ContentsLength(v, clusters);
    var k, r := i / 512, i % 512;
    SectorOfChain(v, clusters, k);
    hide InRange, DataClusters, Volume.SectorLba, Volume.HasSector, FirstOf;
    ContentsAt(v, clusters, k / v.clusterSectors, k % v.clusterSectors, r);
  }

  /** A chain is what the stored 12-bit entries link, to an entry of 0xFF8 or above. */
  lemma ChainStored(v: Volume, entries: seq<entry>, clusters: seq<nat>)
    requires Stored(v.fat, 0, Pack(entries)) && clusters != []
    requires forall i :: 0 <= i < |clusters| ==> clusters[i] < |entries|
    ensures v.IsChain(clusters[0], clusters) <==>
      && (forall i :: 0 <= i < |clusters| ==> clusters[i] < 0xFF8)
      && (forall i :: 0 <= i < |clusters| - 1 ==> entries[clusters[i]] == clusters[i + 1])
      && entries[clusters[|clusters| - 1]] >= 0xFF8
  {
    hide NextCluster, Pack, Stored;
    forall i | 0 <= i < |clusters|
      ensures NextCluster(v.fat, clusters[i]) == entries[clusters[i]]
    {
      UnpackEntry(v.fat, entries, clusters[i]);
    }
  }

  /** What was read of a file from its start are the first of its bytes. */
  lemma PrefixRead(v: Volume, clusters: seq<nat>, data: seq<byte>)
    requires v.clusterSectors > 0 && InRange(v, clusters) && DataClusters(clusters)
    requires Matches(v, Chained(clusters), 0, data) && |data| <= |Contents(v, clusters)|
    ensures data == Contents(v, clusters)[..|data|]
  {
    hide Contents, InRange, DataClusters, Volume.ByteAt, Volume.HasSector;
    forall i | 0 <= i < |data|
      ensures data[i] == Contents(v, clusters)[i]
    {
      assert ByteIs(v, Chained(clusters), 0 + i, data[i]);
      BytesAreContents(v, clusters, i);
    }
  }

  /**
    Opens a file by its path and reads from it: the first bytes of its clusters, as many as are asked for or as the
    directory record says it has. Of a directory, whose record gives no size, all bytes of its clusters can be read.
   */
  method ReadPath(t: FileTable, path: seq<byte>, n: nat)
    returns (data: Option<seq<byte>>, ghost e: DirEntry, ghost clusters: seq<nat>)
    requires t.Valid() && Reliable(t.driver) && !t.AllInUse() && WithoutLeadingSlash(path) != []
    requires t.root.Shaped(t.driver.volume) && t.root.Intact(t.driver.volume) && t.root.pos == 0
    requires WellFormedAlong(t.driver.volume, DirectoryOf(t.driver.volume, t.root), Components(WithoutLeadingSlash(path)))
    modifies t.driver`readCount, t.root, t.root.buffer, t.files, t.Buffers()
    ensures data.None? ==>
      NoSuchPath(t.driver.volume, old(DirectoryOf(t.driver.volume, t.root)), Components(WithoutLeadingSlash(path)))
    ensures data.Some? ==>
      && Resolves(t.driver.volume, old(DirectoryOf(t.driver.volume, t.root)), Components(WithoutLeadingSlash(path)), e)
      && HasClusters(t.driver.volume, e, clusters)
    ensures data.Some? && !e.IsDirectory() && InRange(t.driver.volume, clusters) ==>
      DataClusters(clusters) &&
      (e.size <= |Contents(t.driver.volume, clusters)| ==>
        data.value == Contents(t.driver.volume, clusters)[..if n < e.size then n else e.size])
    ensures data.Some? && e.IsDirectory() && e.size == 0 && InRange(t.driver.volume, clusters) ==>
      DataClusters(clusters) &&
      var c := Contents(t.driver.volume, clusters); data.value == c[..if n < |c| then n else |c|]
  {
    hide FileDesc.State, Resolves, WellFormedAlong, HasClusters, Contents, Components, NoSuchPath, Matches, FileDesc.Intact,
      FileDesc.Shaped, FileDesc.Limit, FileTable.RootRewound, OpenAt, Volume.IsChain;
    ghost var v := t.driver.volume;
    var d;
    ghost var h;
    d, h, e, clusters := t.Open(path);
    if d.None? {
      return None, e, clusters;
    }
    OpenedAt(d.value, v, e, clusters);
    var bytes := t.driver.Read(d.value, n);
    PosBelowLimit(v, d.value);
    data := Some(bytes);
    if InRange(v, clusters) {
      ContentsLength(v, clusters);
      if (if e.IsDirectory() then e.size == 0 else e.size <= |Contents(v, clusters)|) {
        PrefixRead(v, clusters, bytes);
      }
    }
  }

  lemma OpenedAt(d: FileDesc, v: Volume, e: DirEntry, clusters: seq<nat>)
    requires OpenAt(d, v, e, clusters) && HasClusters(v, e, clusters)
    ensures v.clusterSectors > 0 && d.Shaped(v) && d.Intact(v) && d.pos == 0 && d.source == Chained(clusters)
    ensures !e.IsDirectory() && e.size <= 512 * (|clusters| * v.clusterSectors) ==> d.Limit(v) == e.size
    ensures e.IsDirectory() && e.size == 0 ==> d.Limit(v) == 512 * (|clusters| * v.clusterSectors)
  {
    hide Volume.IsChain, FileDesc.Intact;
  }
}
