/** Whole files and paths: reading in pieces, loading the kernel, opening and closing handles. */
module FatFiles {
  import opened Basics
  import opened FatTable
  import opened FatReader
  import opened FatDirectory

  const MAX_FILE_HANDLE: nat := 10
  const MEMORY_BUFFER_SIZE: nat := 0x1_0000

  /** No sector read ever fails. */
  ghost predicate Reliable(drv: FatDriver) {
    forall r: nat :: !drv.fails(r)
  }

  lemma PosBelowLimit(v: Volume, d: FileDesc)
    requires d.Shaped(v) && d.Intact(v)
    ensures d.pos <= d.Limit(v)
  {
  }

  function Sum(ns: seq<nat>): nat {
    if ns == [] then 0 else ns[0] + Sum(ns[1..])
  }

  function Least(a: int, b: int): int {
    if a < b then a else b
  }

  /** Any sequence of reads, with any chunk sizes, returns the successive bytes of the file. */
  method ReadChunks(drv: FatDriver, d: FileDesc, ns: seq<nat>) returns (data: seq<byte>)
    requires Reliable(drv) && d.Shaped(drv.volume) && d.Intact(drv.volume)
    modifies drv`readCount, d`pos, d`curCluster, d`curSectorInCluster, d`size, d.buffer
    ensures d.Shaped(drv.volume) && d.Intact(drv.volume) && d.Limit(drv.volume) == old(d.Limit(drv.volume))
    ensures Matches(drv.volume, d.source, old(d.pos), data) && d.pos == old(d.pos) + |data|
    ensures |data| == Least(Sum(ns), old(d.Limit(drv.volume) - d.pos))
  {
    hide Matches, Volume.IsChain, FileDesc.Loaded;
    data := [];
    NothingMatches(drv.volume, d.source, d.pos);
    PosBelowLimit(drv.volume, d);
    var i := 0;
    while i < |ns|
      invariant i <= |ns| && d.Shaped(drv.volume) && d.Intact(drv.volume)
      invariant Matches(drv.volume, d.source, old(d.pos), data) && d.pos == old(d.pos) + |data|
      invariant d.Limit(drv.volume) == old(d.Limit(drv.volume)) >= d.pos
      invariant Least(Sum(ns), old(d.Limit(drv.volume) - d.pos)) ==
        |data| + Least(Sum(ns[i..]), d.Limit(drv.volume) - d.pos)
    {
      var chunk := drv.Read(d, ns[i]);
      PosBelowLimit(drv.volume, d);
      AppendMatches(drv.volume, d.source, old(d.pos), data, chunk);
      assert ns[i..][1..] == ns[i + 1..];
      data, i := data + chunk, i + 1;
    }
  }

  /** Copies a chunk behind what has been loaded from `at` to `end`. */
  method CopyBehind(memory: array<byte>, ghost at: nat, end: nat, chunk: seq<byte>)
    requires at <= end && end + |chunk| <= memory.Length
    modifies memory
    ensures memory[..at] == old(memory[..at]) && memory[at..end + |chunk|] == old(memory[at..end]) + chunk
    ensures memory[end + |chunk|..] == old(memory[end + |chunk|..])
  {
    forall i | 0 <= i < |chunk| {
      memory[end + i] := chunk[i];
    }
    assert memory[at..end + |chunk|] == memory[at..end] + memory[end..end + |chunk|];
  }

  lemma SameTail(a: seq<byte>, b: seq<byte>, end: nat, n: nat)
    requires |a| == |b| && end + n <= |a| && a[end..] == b[end..]
    ensures a[end + n..] == b[end + n..]
  {
    assert a[end + n..] == a[end..][n..];
    assert b[end + n..] == b[end..][n..];
  }

  /** The loader's loop: read into the buffer, copy behind what is there, until a read returns nothing. */
  method LoadKernel(drv: FatDriver, d: FileDesc, memory: array<byte>, at: nat) returns (end: nat)
    requires Reliable(drv) && d.Shaped(drv.volume) && d.Intact(drv.volume) && d.pos == 0
    requires memory != d.buffer && at + d.Limit(drv.volume) <= memory.Length
    modifies drv`readCount, d`pos, d`curCluster, d`curSectorInCluster, d`size, d.buffer, memory
    ensures end == at + old(d.Limit(drv.volume)) <= memory.Length
    ensures d.Shaped(drv.volume) && Matches(drv.volume, d.source, 0, memory[at..end])
    ensures memory[..at] == old(memory[..at]) && memory[end..] == old(memory[end..])
  {
    hide Matches, Volume.IsChain, FileDesc.Intact, FileDesc.Limit;
    end := at;
    PosBelowLimit(drv.volume, d);
    NothingMatches(drv.volume, d.source, 0);
    assert memory[at..end] == [];
    var chunk := drv.Read(d, MEMORY_BUFFER_SIZE);
    PosBelowLimit(drv.volume, d);
    while |chunk| > 0
      invariant at <= end && end + |chunk| == at + d.pos && d.pos <= d.Limit(drv.volume) == old(d.Limit(drv.volume))
      invariant d.Shaped(drv.volume) && d.Intact(drv.volume)
      invariant Matches(drv.volume, d.source, 0, memory[at..end])
      invariant Matches(drv.volume, d.source, end - at, chunk)
      invariant |chunk| == 0 ==> d.pos == d.Limit(drv.volume)
      invariant memory[..at] == old(memory[..at]) && memory[end..] == old(memory[end..])
      decreases d.Limit(drv.volume) - (end - at)
    {
      ghost var loaded, before := memory[at..end], memory[..];
      CopyBehind(memory, at, end, chunk);
      SameTail(before, old(memory[..]), end, |chunk|);
      AppendMatches(drv.volume, d.source, 0, loaded, chunk);
      end := end + |chunk|;
      chunk := drv.Read(d, MEMORY_BUFFER_SIZE);
      PosBelowLimit(drv.volume, d);
    }
  }

  /** The directory a descriptor reads. */
  ghost function DirectoryOf(v: Volume, d: FileDesc): Directory
    reads d
  {
    Directory(d.source, d.Limit(v))
  }

  /** `fat_find_file`: scans the records of a directory for the converted name. */
  method FindFile(drv: FatDriver, d: FileDesc, name: seq<byte>) returns (found: bool, entry: DirEntry, ghost r: nat)
    requires Reliable(drv) && d.Shaped(drv.volume) && d.Intact(drv.volume) && d.pos == 0 && Convertible(name)
    modifies drv`readCount, d`pos, d`curCluster, d`curSectorInCluster, d`size, d.buffer
    ensures d.Shaped(drv.volume) && d.Intact(drv.volume) && DirectoryOf(drv.volume, d) == old(DirectoryOf(drv.volume, d))
    ensures d.pos == if found then RECORD_SIZE * (r + 1) else d.Limit(drv.volume)
    ensures found ==> FoundAt(drv.volume, old(DirectoryOf(drv.volume, d)), FatName(name), r)
    ensures found ==> entry == Decode(RecordAt(drv.volume, d.source, r))
    ensures !found ==> forall q: nat :: !Named(drv.volume, old(DirectoryOf(drv.volume, d)), q, FatName(name))
  {
    hide Matches, Volume.IsChain, FileDesc.Loaded, Volume.ByteAt, FatName, Decode, Named, RecordAt;
    var fatName := FatName(name);
    ghost var dir := DirectoryOf(drv.volume, d);
    r := 0;
    while true
      invariant d.Shaped(drv.volume) && d.Intact(drv.volume) && d.pos == RECORD_SIZE * r
      invariant DirectoryOf(drv.volume, d) == dir
      invariant forall q: nat :: q < r ==> !Named(drv.volume, dir, q, fatName)
      decreases dir.limit - d.pos
    {
      var s := drv.Read(d, RECORD_SIZE);
      PosBelowLimit(drv.volume, d);
      if |s| != RECORD_SIZE {
        RecordsEnd(drv.volume, dir, r, fatName);
        entry := Decode(seq(RECORD_SIZE, _ => 0));
        return false, entry, r;
      }
      RecordRead(drv.volume, dir, r, s);
      entry := Decode(s);
      NamedRecord(drv.volume, dir, r, s, fatName);
      if fatName == entry.name {
        return true, entry, r;
      }
      r := r + 1;
    }
  }

  /** A full record read is the record. */
  lemma RecordRead(v: Volume, dir: Directory, r: nat, s: seq<byte>)
    requires v.clusterSectors > 0 && |s| == RECORD_SIZE && Matches(v, dir.src, RECORD_SIZE * r, s)
    requires RECORD_SIZE * (r + 1) <= dir.limit
    ensures Listed(v, dir, r) && RecordAt(v, dir.src, r) == s
  {
    hide Volume.HasSector;
    assert ByteIs(v, dir.src, RECORD_SIZE * r + 0, s[0]);
    forall i | 0 <= i < RECORD_SIZE
      ensures RecordAt(v, dir.src, r)[i] == s[i]
    {
      assert ByteIs(v, dir.src, RECORD_SIZE * r + i, s[i]);
    }
  }

  lemma NamedRecord(v: Volume, dir: Directory, r: nat, s: seq<byte>, name: seq<byte>)
    requires v.clusterSectors > 0 && Listed(v, dir, r) && |s| == RECORD_SIZE && RecordAt(v, dir.src, r) == s
    ensures Named(v, dir, r, name) <==> Decode(s).name == name
  {
  }

  lemma RecordsEnd(v: Volume, dir: Directory, r: nat, name: seq<byte>)
    requires v.clusterSectors > 0 && dir.limit < RECORD_SIZE * (r + 1)
    ensures forall q: nat :: q >= r ==> !Named(v, dir, q, name)
  {
  }
}
