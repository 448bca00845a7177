/** `fat_read`: a buffered cursor over a chain of clusters, one sector at a time. */
module FatReader {
  import opened Basics
  import opened FatTable

  const SECTOR_SIZE: nat := 512
  const UINT32: nat := 0x1_0000_0000

  type sector = s: seq<byte> | |s| == SECTOR_SIZE witness seq(SECTOR_SIZE, _ => 0)

  /**
    Where the sectors of a file come from: a cluster chain, none for an empty file, or consecutive ones for the root
    directory. `head` is the sector seen in the place of the root's first one: `fat_close` does not fetch that one
    again, so that it can be another sector the buffer still holds.
   */
  datatype Source = Flat(lba: nat, head: nat) | Chained(clusters: seq<nat>)

  /** What does not change while files are read: the disk, the table in memory and the volume's layout. */
  datatype Volume = Volume(disk: nat -> sector, fat: nat -> byte, dataLba: nat, clusterSectors: nat) {

    /** Position of sector `k` of a file: which cluster of the chain, and which sector of that. */
    function ClusterIndex(k: nat): nat
      requires clusterSectors > 0
    {
      k / clusterSectors
    }

    function SectorIndex(k: nat): nat
      requires clusterSectors > 0
    {
      k % clusterSectors
    }

    function ClusterToLba(cluster: int): nat {
      (dataLba + (cluster - 2) * clusterSectors) % UINT32
    }

    /** The clusters that follow one another from `first` to the end-of-chain mark. */
    ghost predicate IsChain(first: nat, clusters: seq<nat>) {
      && |clusters| > 0 && clusters[0] == first
      && (forall i :: 0 <= i < |clusters| ==> clusters[i] < END_OF_CHAIN)
      && (forall i :: 0 <= i < |clusters| - 1 ==> NextCluster(fat, clusters[i]) == clusters[i + 1])
      && NextCluster(fat, clusters[|clusters| - 1]) >= END_OF_CHAIN
    }

    lemma ChainNext(first: nat, clusters: seq<nat>, q: nat)
      requires IsChain(first, clusters) && q < |clusters|
      ensures clusters[q] < END_OF_CHAIN
      ensures if q + 1 < |clusters| then NextCluster(fat, clusters[q]) == clusters[q + 1] < END_OF_CHAIN
        else NextCluster(fat, clusters[q]) >= END_OF_CHAIN
    {
    }

    function SectorLba(src: Source, k: nat): nat
      requires clusterSectors > 0 && (src.Chained? ==> ClusterIndex(k) < |src.clusters|)
    {
      match src
      case Flat(lba, head) => if k == 0 then head else lba + k
      case Chained(clusters) => (ClusterToLba(clusters[ClusterIndex(k)]) + SectorIndex(k)) % UINT32
    }

    /** Number of sectors; the flat source is as long as it is read. */
    ghost predicate HasSector(src: Source, k: nat)
      requires clusterSectors > 0
    {
      src.Chained? ==> k < |src.clusters| * clusterSectors
    }

    lemma SectorInChain(src: Source, k: nat)
      requires clusterSectors > 0 && HasSector(src, k)
      ensures src.Chained? ==> ClusterIndex(k) < |src.clusters|
    {
      if src.Chained? {
        var q := k / clusterSectors;
        assert k == q * clusterSectors + k % clusterSectors;
        if q >= |src.clusters| {
          MulLe(|src.clusters|, q, clusterSectors);
          assert false;
        }
      }
    }

    /** The file as a plain string of bytes: byte `i`. */
    function ByteAt(src: Source, i: nat): byte
      requires clusterSectors > 0 && HasSector(src, i / SECTOR_SIZE)
    {
      SectorInChain(src, i / SECTOR_SIZE);
      disk(SectorLba(src, i / SECTOR_SIZE))[i % SECTOR_SIZE]
    }
  }

  lemma {:induction false} MulLe(a: nat, b: nat, w: nat)
    requires a <= b
    ensures a * w <= b * w
    decreases b - a
  {
    if a < b {
      MulLe(a, b - 1, w);
      assert b * w == (b - 1) * w + w;
    }
  }

  lemma DivStep(k: nat, w: nat, n: nat)
    requires w > 0 && k / w < n
    ensures var q, r := k / w, k % w;
      && (if r + 1 == w then (k + 1) / w == q + 1 && (k + 1) % w == 0 else (k + 1) / w == q && (k + 1) % w == r + 1)
      && ((r + 1 == w && q + 1 == n) <==> k + 1 == n * w)
      && (!(r + 1 == w && q + 1 == n) ==> k + 1 < n * w)
  {
    var q, r := k / w, k % w;
    assert k == q * w + r;
    MulLe(q + 1, n, w);
    assert (q + 1) * w == q * w + w;
    if r + 1 == w {
      assert k + 1 == (q + 1) * w;
      DivUnique(k + 1, w, q + 1, 0);
      if q + 1 < n {
        MulLe(q + 2, n, w);
        assert (q + 2) * w == (q + 1) * w + w;
      }
    } else {
      DivUnique(k + 1, w, q, r + 1);
    }
  }

  lemma DivUnique(x: nat, w: nat, q: nat, r: nat)
    requires w > 0 && r < w && x == q * w + r
    ensures x / w == q && x % w == r
  {
    var q', r' := x / w, x % w;
    assert x == q' * w + r';
    assert (q' + 1) * w == q' * w + w && (q + 1) * w == q * w + w;
    if q' < q {
      MulLe(q' + 1, q, w);
    } else if q < q' {
      MulLe(q + 1, q', w);
    }
  }

  datatype DescState = DescState(buffer: seq<byte>, isDir: bool, pos: nat, size: nat, inUse: bool,
                                 firstCluster: nat, curCluster: nat, curSectorInCluster: nat, source: Source)

  class FileDesc {
    const buffer: array<byte>
    const isRoot: bool
    var isDir: bool
    var pos: nat
    var size: nat
    var inUse: bool
    var firstCluster: nat
    var curCluster: nat
    var curSectorInCluster: nat
    /** The sectors the descriptor reads. */
    ghost var source: Source

    constructor (isRoot: bool)
      ensures this.isRoot == isRoot && buffer.Length == SECTOR_SIZE && fresh(buffer) && !inUse
    {
      this.isRoot := isRoot;
      buffer := new byte[SECTOR_SIZE](_ => 0);
      inUse := false;
    }

    /** All that reading through the descriptor depends on. */
    ghost function State(): DescState
      reads this, buffer
    {
      DescState(buffer[..], isDir, pos, size, inUse, firstCluster, curCluster, curSectorInCluster, source)
    }

    ghost predicate Shaped(v: Volume)
      reads `source, `firstCluster
    {
      && buffer.Length == SECTOR_SIZE && v.clusterSectors > 0
      && isRoot == source.Flat?
      && (source.Flat? ==> source.lba == firstCluster)
      && (source.Chained? ==> source.clusters == [] || v.IsChain(firstCluster, source.clusters))
    }

    /** The size field bounds what is read, except for directories that carry no size. */
    ghost predicate Bounded()
      reads `isDir, `size
    {
      !isDir || size != 0
    }

    ghost function Capacity(v: Volume): nat
      requires source.Chained?
      reads `source
    {
      |source.clusters| * v.clusterSectors * SECTOR_SIZE
    }

    /** Where reading ends: at the size, but no later than the end of the chain. */
    ghost function Limit(v: Volume): nat
      reads `source, `isDir, `size
    {
      if source.Flat? then size
      else if Bounded() && size < Capacity(v) then size
      else Capacity(v)
    }

    /** The cursor fields point to sector `k`. */
    ghost predicate CursorAt(v: Volume, k: nat)
      requires v.clusterSectors > 0
      reads `source, `curCluster, `curSectorInCluster
    {
      match source
      case Flat(lba, _) => curCluster == lba + k
      case Chained(clusters) =>
        && v.ClusterIndex(k) < |clusters|
        && curCluster == clusters[v.ClusterIndex(k)] && curSectorInCluster == v.SectorIndex(k)
    }

    /** The buffer holds the sector that contains `pos`, or the chain has ended at `pos`. */
    ghost predicate Intact(v: Volume)
      requires Shaped(v)
      reads this, buffer
    {
      && (isRoot ==> Bounded())
      && (Bounded() ==> pos <= size)
      && if source.Chained? && pos == Capacity(v) then Bounded() && size == pos
         else Loaded(v)
    }

    ghost predicate Loaded(v: Volume)
      requires Shaped(v)
      reads this, buffer
    {
      var k := pos / SECTOR_SIZE;
      && v.HasSector(source, k) && CursorAt(v, k)
      && (v.SectorInChain(source, k); buffer[..] == v.disk(v.SectorLba(source, k)))
    }
  }

  class FatDriver {
    const volume: Volume
    /** The drive fails on the reads whose number satisfies `fails`. */
    const fails: nat -> bool
    var readCount: nat

    constructor (volume: Volume, fails: nat -> bool)
      ensures this.volume == volume && this.fails == fails && readCount == 0
    {
      this.volume, this.fails, readCount := volume, fails, 0;
    }

    /** No read numbered from `from` on and below `to` fails. */
    ghost predicate Succeeded(from: nat, to: nat)
      reads this
    {
      forall r: nat :: from <= r < to ==> !fails(r)
    }

    /** Reads one sector into the buffer; a failed read leaves the buffer as it was. */
    method ReadSector(lba: nat, buffer: array<byte>) returns (failed: bool)
      requires buffer.Length == SECTOR_SIZE
      modifies this`readCount, buffer
      ensures readCount == old(readCount) + 1 && failed == fails(old(readCount))
      ensures buffer[..] == if failed then old(buffer[..]) else volume.disk(lba)
    {
      failed := fails(readCount);
      readCount := readCount + 1;
      if !failed {
        var s := volume.disk(lba);
        forall i | 0 <= i < SECTOR_SIZE {
          buffer[i] := s[i];
        }
      }
    }

    /** Cluster and sector of the sector after `k`. */
    lemma NextIndex(d: FileDesc, k: nat)
      requires d.Shaped(volume) && volume.HasSector(d.source, k)
      ensures d.source.Chained? ==>
        var spc, n, q, r := volume.clusterSectors, |d.source.clusters|, volume.ClusterIndex(k), volume.SectorIndex(k);
        && q < n && r < spc
        && (if r + 1 == spc then volume.ClusterIndex(k + 1) == q + 1 && volume.SectorIndex(k + 1) == 0
            else volume.ClusterIndex(k + 1) == q && volume.SectorIndex(k + 1) == r + 1)
        && ((r + 1 == spc && q + 1 == n) <==> (k + 1) * SECTOR_SIZE == d.Capacity(volume))
        && (!(r + 1 == spc && q + 1 == n) ==> volume.HasSector(d.source, k + 1))
    {
      if d.source.Chained? {
        volume.SectorInChain(d.source, k);
        DivStep(k, volume.clusterSectors, |d.source.clusters|);
      }
    }

    /** Moves the cursor to the sector after `k`, if the chain has one. */
    method AdvanceCursor(d: FileDesc, ghost k: nat) returns (ended: bool)
      requires d.Shaped(volume) && !d.isRoot && d.CursorAt(volume, k) && volume.HasSector(d.source, k)
      modifies d`curCluster, d`curSectorInCluster
      ensures ended <==> (k + 1) * SECTOR_SIZE == d.Capacity(volume)
      ensures !ended ==> volume.HasSector(d.source, k + 1) && d.CursorAt(volume, k + 1)
    {
      NextIndex(d, k);
      ghost var clusters, q := d.source.clusters, volume.ClusterIndex(k);
      volume.ChainNext(d.firstCluster, clusters, q);
      hide NextCluster, Volume.IsChain, Volume.HasSector, FileDesc.Capacity, Volume.ClusterIndex, Volume.SectorIndex;
      d.curSectorInCluster := d.curSectorInCluster + 1;
      if d.curSectorInCluster >= volume.clusterSectors {
        d.curSectorInCluster := 0;
        d.curCluster := NextCluster(volume.fat, d.curCluster);
      }
      ended := d.curCluster >= END_OF_CHAIN;
    }

    /** The part of `fat_read` that runs when a sector has been used up: fetch the next one, if there is one. */
    method NextSector(d: FileDesc, ghost k: nat) returns (stop: bool)
      requires d.Shaped(volume) && d.pos == (k + 1) * SECTOR_SIZE && d.CursorAt(volume, k) && volume.HasSector(d.source, k)
      requires (d.isRoot ==> d.Bounded()) && (d.Bounded() ==> d.pos <= d.size)
      modifies this`readCount, d`curCluster, d`curSectorInCluster, d`size, d.buffer
      ensures d.Shaped(volume) && old(readCount) <= readCount <= old(readCount) + 1
      ensures Succeeded(old(readCount), readCount) ==> d.Intact(volume)
      ensures d.Limit(volume) == old(d.Limit(volume))
      ensures stop ==> !Succeeded(old(readCount), readCount) || d.pos == d.Limit(volume)
      ensures !stop ==> d.Intact(volume) && d.size == old(d.size)
    {
      hide Volume.IsChain, NextCluster;
      if d.isRoot {
        d.curCluster := d.curCluster + 1;
        stop := ReadSector(d.curCluster, d.buffer);
        assert stop ==> fails(old(readCount));
        return;
      }
      var ended := AdvanceCursor(d, k);
      if ended {
        d.size := d.pos;
        return true;
      }
      volume.SectorInChain(d.source, k + 1);
      var lba := (volume.ClusterToLba(d.curCluster) + d.curSectorInCluster) % UINT32;
      stop := ReadSector(lba, d.buffer);
      assert stop ==> fails(old(readCount));
    }

    /** Inside a sector the chain has not ended. */
    lemma NotAtEnd(d: FileDesc, offset: nat)
      requires d.Shaped(volume) && 0 < offset < SECTOR_SIZE && d.pos % SECTOR_SIZE == offset
      ensures d.source.Chained? ==> d.pos != d.Capacity(volume)
    {
    }

    /** Copies what the call still wants, but no further than to the end of the sector. */
    method CopyChunk(d: FileDesc, left: nat) returns (chunk: seq<byte>, used: bool)
      requires d.Shaped(volume) && d.Loaded(volume) && left > 0
      requires (d.isRoot ==> d.Bounded()) && (d.Bounded() ==> d.pos + left <= d.size)
      modifies d`pos
      ensures 0 < |chunk| <= left && d.pos == old(d.pos) + |chunk|
      ensures Matches(volume, d.source, old(d.pos), chunk)
      ensures used ==> d.pos == (old(d.pos) / SECTOR_SIZE + 1) * SECTOR_SIZE
      ensures !used ==> |chunk| == left && d.Intact(volume)
      ensures d.Bounded() ==> d.pos <= d.size
    {
      hide Volume.IsChain, Volume.SectorLba, Matches;
      InSector(d.pos, left);
      var relativePos := d.pos % SECTOR_SIZE;
      var rest := SECTOR_SIZE - relativePos;
      var copySize := if left < rest then left else rest;
      chunk := d.buffer[relativePos..relativePos + copySize];
      SliceMatches(volume, d.source, d.pos, d.buffer[..], chunk);
      d.pos := d.pos + copySize;
      used := rest == copySize;
      if !used {
        NotAtEnd(d, relativePos + copySize);
      }
    }

    lemma IntactBound(d: FileDesc)
      requires d.Shaped(volume) && d.Intact(volume)
      ensures d.isRoot ==> d.Bounded()
      ensures d.Bounded() ==> d.pos <= d.size
      ensures d.Bounded() && d.pos == d.size ==> d.pos == d.Limit(volume)
    {
    }

    /** While something is left to read, the buffer holds the sector at the position. */
    lemma IntactLoaded(d: FileDesc)
      requires d.Shaped(volume) && d.Intact(volume) && (d.Bounded() ==> d.pos < d.size)
      ensures d.Loaded(volume) && (d.isRoot ==> d.Bounded())
      ensures volume.HasSector(d.source, d.pos / SECTOR_SIZE) && d.CursorAt(volume, d.pos / SECTOR_SIZE)
    {
    }

    /** One turn of the loop of `fat_read`: copies from the sector, and fetches the next one when it is used up. */
    method Turn(d: FileDesc, left: nat) returns (chunk: seq<byte>, stop: bool)
      requires d.Shaped(volume) && d.Intact(volume) && left > 0 && (d.Bounded() ==> d.pos + left <= d.size)
      modifies this`readCount, d`pos, d`curCluster, d`curSectorInCluster, d`size, d.buffer
      ensures d.Shaped(volume) && old(readCount) <= readCount && d.Limit(volume) == old(d.Limit(volume))
      ensures 0 < |chunk| <= left && d.pos == old(d.pos) + |chunk| && Matches(volume, d.source, old(d.pos), chunk)
      ensures Succeeded(old(readCount), readCount) ==> d.Intact(volume)
      ensures if stop then !Succeeded(old(readCount), readCount) || d.pos == d.Limit(volume)
        else d.Intact(volume) && d.size == old(d.size)
    {
      hide Volume.IsChain, Volume.SectorLba, Matches, FileDesc.CursorAt, FileDesc.Intact, FileDesc.Loaded, FileDesc.Limit,
        Volume.HasSector;
      ghost var k := d.pos / SECTOR_SIZE;
      IntactLoaded(d);
      var used;
      chunk, used := CopyChunk(d, left);
      stop := false;
      if used {
        stop := NextSector(d, k);
      }
    }

    /**
      `fat_read`: the next `n` bytes, or what is left of the file. If no sector read fails, the cursor
      stays intact; in any case the bytes returned are the next ones of the file.
     */
    method Read(d: FileDesc, n: nat) returns (data: seq<byte>)
      requires d.Shaped(volume) && d.Intact(volume)
      modifies this`readCount, d`pos, d`curCluster, d`curSectorInCluster, d`size, d.buffer
      ensures d.Shaped(volume) && old(readCount) <= readCount
      ensures Matches(volume, d.source, old(d.pos), data) && d.pos == old(d.pos) + |data|
      ensures |data| <= n && d.Limit(volume) == old(d.Limit(volume))
      ensures Succeeded(old(readCount), readCount) ==> d.Intact(volume)
      ensures Succeeded(old(readCount), readCount) ==> |data| == n || d.pos == d.Limit(volume)
    {
      hide Volume.IsChain, Matches, FileDesc.Intact, FileDesc.Limit;
      IntactBound(d);
      var left: nat := n;
      if !d.isDir || d.size != 0 {
        left := if n < d.size - d.pos then n else d.size - d.pos;
      }
      data := [];
      NothingMatches(volume, d.source, d.pos);
      while left > 0
        invariant d.Shaped(volume) && d.Intact(volume) && old(readCount) <= readCount
        invariant Matches(volume, d.source, old(d.pos), data) && d.pos == old(d.pos) + |data|
        invariant d.Limit(volume) == old(d.Limit(volume))
        invariant |data| + left <= n && (|data| + left < n ==> d.Bounded() && d.pos + left == d.size)
        invariant d.Bounded() ==> d.pos + left <= d.size
        decreases left
      {
        var chunk, stop := Turn(d, left);
        AppendMatches(volume, d.source, old(d.pos), data, chunk);
        data, left := data + chunk, left - |chunk|;
        if stop {
          return;
        }
      }
      IntactBound(d);
    }
  }

  /** `data` are the bytes of the file from `from` on. */
  ghost predicate Matches(v: Volume, src: Source, from: nat, data: seq<byte>)
    requires v.clusterSectors > 0
  {
    forall i :: 0 <= i < |data| ==> ByteIs(v, src, from + i, data[i])
  }

  ghost predicate ByteIs(v: Volume, src: Source, at: nat, b: byte)
    requires v.clusterSectors > 0
  {
    v.HasSector(src, at / SECTOR_SIZE) && b == v.ByteAt(src, at)
  }

  lemma NothingMatches(v: Volume, src: Source, from: nat)
    requires v.clusterSectors > 0
    ensures Matches(v, src, from, [])
  {
  }

  lemma AppendMatches(v: Volume, src: Source, from: nat, data: seq<byte>, more: seq<byte>)
    requires v.clusterSectors > 0 && Matches(v, src, from, data) && Matches(v, src, from + |data|, more)
    ensures Matches(v, src, from, data + more)
  {
    hide ByteIs;
    var all := data + more;
    forall i | 0 <= i < |all|
      ensures ByteIs(v, src, from + i, all[i])
    {
      if i < |data| {
        assert all[i] == data[i];
      } else {
        var k := i - |data|;
        assert all[i] == more[k] && from + i == from + |data| + k;
      }
    }
  }

  /** Moving on within a sector, or to its end. */
  lemma InSector(pos: nat, n: nat)
    ensures pos % SECTOR_SIZE + n == SECTOR_SIZE ==> pos + n == (pos / SECTOR_SIZE + 1) * SECTOR_SIZE
    ensures pos % SECTOR_SIZE + n < SECTOR_SIZE ==>
      (pos + n) / SECTOR_SIZE == pos / SECTOR_SIZE && (pos + n) % SECTOR_SIZE == pos % SECTOR_SIZE + n
  {
    var q, r := pos / SECTOR_SIZE, pos % SECTOR_SIZE;
    assert pos == SECTOR_SIZE * q + r;
    if r + n < SECTOR_SIZE {
      assert pos + n == SECTOR_SIZE * q + (r + n);
    }
  }

  lemma SliceMatches(v: Volume, src: Source, pos: nat, buffer: seq<byte>, chunk: seq<byte>)
    requires v.clusterSectors > 0 && v.HasSector(src, pos / SECTOR_SIZE) && |buffer| == SECTOR_SIZE
    requires src.Chained? ==> v.ClusterIndex(pos / SECTOR_SIZE) < |src.clusters|
    requires buffer == v.disk(v.SectorLba(src, pos / SECTOR_SIZE))
    requires pos % SECTOR_SIZE + |chunk| <= SECTOR_SIZE && chunk == buffer[pos % SECTOR_SIZE..pos % SECTOR_SIZE + |chunk|]
    ensures Matches(v, src, pos, chunk)
  {
    hide Volume.SectorLba;
    forall i | 0 <= i < |chunk|
      ensures ByteIs(v, src, pos + i, chunk[i])
    {
      assert (pos + i) / SECTOR_SIZE == pos / SECTOR_SIZE && (pos + i) % SECTOR_SIZE == pos % SECTOR_SIZE + i;
    }
  }
}
