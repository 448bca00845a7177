/** The table of open files: `fat_open_entry`, `fat_open`, `fat_close`, and reads through one handle among many. */
module FatHandles {
  import opened Basics
  import opened FatTable
  import opened FatReader
  import opened FatDirectory
  import opened FatFiles

  class FileTable {
    const driver: FatDriver
    const root: FileDesc
    const files: seq<FileDesc>

    ghost predicate Valid()
      reads this, root, files
    {
      && |files| == MAX_FILE_HANDLE && root.isRoot && driver.volume.clusterSectors > 0
      && root.buffer.Length == SECTOR_SIZE
      && (forall i :: 0 <= i < |files| ==>
           !files[i].isRoot && files[i].buffer.Length == SECTOR_SIZE && files[i].buffer != root.buffer)
      && (forall i, k :: 0 <= i < k < |files| ==> files[i] != files[k] && files[i].buffer != files[k].buffer)
    }

    constructor (driver: FatDriver, root: FileDesc, files: seq<FileDesc>)
      ensures this.driver == driver && this.root == root && this.files == files
    {
      this.driver, this.root, this.files := driver, root, files;
    }

    /** The handles of open files. */
    ghost function InUse(): set<int>
      requires |files| == MAX_FILE_HANDLE
      reads this, files`inUse
    {
      set h | 0 <= h < MAX_FILE_HANDLE && files[h].inUse
    }

    ghost predicate AllInUse()
      requires |files| == MAX_FILE_HANDLE
      reads this, files`inUse
    {
      forall h :: 0 <= h < MAX_FILE_HANDLE ==> files[h].inUse
    }

    ghost function Buffers(): set<object>
      requires |files| == MAX_FILE_HANDLE
    {
      set h | 0 <= h < MAX_FILE_HANDLE :: files[h].buffer
    }

    /** The lowest handle not in use. */
    method FreeHandle() returns (handle: int)
      requires Valid()
      ensures handle == -1 <==> AllInUse()
      ensures handle != -1 ==> 0 <= handle < MAX_FILE_HANDLE && handle !in InUse()
      ensures forall k :: 0 <= k < handle ==> k in InUse()
    {
      handle := -1;
      var i := 0;
      while i < MAX_FILE_HANDLE && handle < 0
        invariant 0 <= i <= MAX_FILE_HANDLE
        invariant handle == -1 ==> forall k :: 0 <= k < i ==> files[k].inUse
        invariant handle != -1 ==> 0 <= handle < MAX_FILE_HANDLE && !files[handle].inUse
        invariant forall k :: 0 <= k < handle ==> files[k].inUse
      {
        if !files[i].inUse {
          handle := i;
        }
        i := i + 1;
      }
    }

    /** `fat_open_entry`: takes the lowest free handle for the entry, whose chain of clusters is `clusters`. */
    method OpenEntry(e: DirEntry, ghost clusters: seq<nat>) returns (h: Option<nat>)
      requires Valid() && HasClusters(driver.volume, e, clusters)
      modifies driver`readCount, files, Buffers()
      ensures Valid()
      ensures forall k :: k in old(InUse()) ==> files[k].State() == old(files[k].State())
      ensures h.None? ==> InUse() == old(InUse())
      ensures h.None? && Reliable(driver) ==> old(AllInUse()) && forall k :: 0 <= k < 10 ==> k in old(InUse())
      ensures h.Some? ==> h.value < MAX_FILE_HANDLE && h.value !in old(InUse()) && InUse() == old(InUse()) + {h.value}
      ensures h.Some? ==> forall k :: 0 <= k < h.value ==> k in old(InUse())
      ensures h.Some? ==> OpenAt(files[h.value], driver.volume, e, clusters)
    {
      hide OpenAt, FileDesc.State, Volume.IsChain;
      var handle := FreeHandle();
      if handle < 0 {
        return None;
      }
      var failed := Fill(files[handle], e, clusters);
      h := if failed then None else Some(handle);
    }

    /** Sets a descriptor to the start of an entry's file and fetches the first sector. */
    method Fill(d: FileDesc, e: DirEntry, ghost clusters: seq<nat>) returns (failed: bool)
      requires d.buffer.Length == SECTOR_SIZE && !d.isRoot && driver.volume.clusterSectors > 0
      requires HasClusters(driver.volume, e, clusters)
      modifies driver`readCount, d, d.buffer
      ensures failed ==> d.inUse == old(d.inUse) && !Reliable(driver)
      ensures !failed ==> d.inUse && OpenAt(d, driver.volume, e, clusters)
    {
      FirstSector(driver.volume, e, clusters);
      hide OpenAt, HasClusters, Volume.IsChain, Reliable, Volume.SectorLba, Volume.HasSector;
      d.isDir := e.IsDirectory();
      d.pos := 0;
      d.size := e.size;
      d.firstCluster := e.firstCluster;
      d.curCluster := d.firstCluster;
      d.curSectorInCluster := 0;
      d.source := Chained(clusters);
      failed := driver.ReadSector(driver.volume.ClusterToLba(d.curCluster), d.buffer);
      if failed {
        NotReliable();
      } else {
        d.inUse := true;
        Opened(d, driver.volume, e, clusters);
      }
    }

    lemma NotReliable()
      requires exists r: nat :: driver.fails(r)
      ensures !Reliable(driver)
    {
    }

    /** `fat_close`. The root directory is rewound, but its buffer keeps the sector it holds. */
    method Close(d: FileDesc)
      requires Valid() && (d == root || d in files)
      modifies d`inUse, d`pos, d`curCluster, d`source
      ensures Valid()
      ensures d == root ==> d.pos == 0 && d.curCluster == d.firstCluster && InUse() == old(InUse())
      ensures d == root && old(d.Shaped(driver.volume) && d.Intact(driver.volume)) ==>
        && d.Shaped(driver.volume) && d.Intact(driver.volume)
        && d.source == Flat(d.firstCluster, driver.volume.SectorLba(old(d.source), old(d.pos) / SECTOR_SIZE))
      ensures d != root ==> d.pos == old(d.pos) && d.curCluster == old(d.curCluster) && d.source == old(d.source)
      ensures forall h :: 0 <= h < MAX_FILE_HANDLE && d == files[h] ==> InUse() == old(InUse()) - {h}
    {
      if d.isRoot {
        d.pos := 0;
        root.curCluster := root.firstCluster;
        d.source := Flat(d.firstCluster, if d.source.Flat? then driver.volume.SectorLba(d.source, old(d.pos) / SECTOR_SIZE) else 0);
      } else {
        d.inUse := false;
      }
    }

    /** Handles open before a call are those open now. */
    lemma SameHandles(before: set<int>)
      requires Valid() && InUse() == before
      ensures AllInUse() <==> forall h :: 0 <= h < MAX_FILE_HANDLE ==> h in before
    {
      forall h | 0 <= h < MAX_FILE_HANDLE
        ensures files[h].inUse <==> h in before
      {
      }
    }

    /** Where `fat_open` stands: still at the root, or at the entry `e` opened under handle `h`. */
    ghost predicate Standing(before: set<int>, current: FileDesc, h: nat, e: DirEntry, clusters: seq<nat>)
      requires |files| == MAX_FILE_HANDLE
      reads this, root, files, current, current.buffer
    {
      if current == root then InUse() == before
      else
        && h < MAX_FILE_HANDLE && h !in before && InUse() == before + {h} && current == files[h]
        && HasClusters(driver.volume, e, clusters) && OpenAt(current, driver.volume, e, clusters)
    }

    /** The root directory was scanned for a name and rewound. */
    ghost predicate RootRewound(src: Source, dir: Directory, name: seq<byte>)
      requires driver.volume.clusterSectors > 0 && src.Flat? && Convertible(name)
      reads root, root.buffer
    {
      && root.Shaped(driver.volume) && root.Intact(driver.volume) && root.pos == 0
      && DirectoryOf(driver.volume, root) ==
        Directory(Rewound(driver.volume, src, LookupEnd(driver.volume, dir, FatName(name))), dir.limit)
    }

    lemma RootFlat()
      requires Valid() && root.Shaped(driver.volume)
      ensures root.source.Flat?
    {
    }

    /** Looks a name up in the current directory and closes that. */
    method LookUp(current: FileDesc, name: seq<byte>) returns (found: bool, e: DirEntry, ghost r: nat)
      requires Valid() && Reliable(driver) && (current == root || current in files) && Convertible(name)
      requires current.Shaped(driver.volume) && current.Intact(driver.volume) && current.pos == 0
      modifies driver`readCount, current, current.buffer
      ensures Valid()
      ensures found ==> FoundAt(driver.volume, old(DirectoryOf(driver.volume, current)), FatName(name), r)
      ensures found ==> e == Decode(RecordAt(driver.volume, old(current.source), r))
      ensures !found ==> forall q: nat :: !Named(driver.volume, old(DirectoryOf(driver.volume, current)), q, FatName(name))
      ensures current == root ==> InUse() == old(InUse())
      ensures forall h :: 0 <= h < MAX_FILE_HANDLE && current == files[h] ==> InUse() == old(InUse()) - {h}
      ensures current == root ==> RootRewound(old(root.source), old(DirectoryOf(driver.volume, root)), name)
    {
      hide Volume.IsChain, Decode, RecordAt, Named, FileDesc.Loaded, FatName, LookupEnd;
      ghost var dir := DirectoryOf(driver.volume, current);
      found, e, r := FindFile(driver, current, name);
      LookupEnds(driver.volume, dir, FatName(name));
      Close(current);
    }

    /** One name of the path: looks it up in the current directory, closes that, and opens what was found. */
    method Descend(current: FileDesc, name: seq<byte>, ghost before: set<int>, ghost k: nat, ghost names: seq<seq<byte>>)
      returns (h: Option<nat>, ghost e: DirEntry, ghost clusters: seq<nat>, ghost r: nat)
      requires Valid() && Reliable(driver) && names != [] && names[0] == name
      requires if current == root then InUse() == before
        else k < MAX_FILE_HANDLE && current == files[k] && k !in before && InUse() == before + {k}
      requires exists k :: 0 <= k < MAX_FILE_HANDLE && k !in before
      requires current.Shaped(driver.volume) && current.Intact(driver.volume) && current.pos == 0
      requires WellFormedAlong(driver.volume, DirectoryOf(driver.volume, current), names)
      modifies driver`readCount, (if current == root then {root, root.buffer} else {}), files, Buffers()
      ensures Valid()
      ensures forall k :: k in before && 0 <= k < MAX_FILE_HANDLE ==> files[k].State() == old(files[k].State())
      ensures h.None? ==> InUse() == before
      ensures h.None? ==> forall q: nat :: !FoundAt(driver.volume, old(DirectoryOf(driver.volume, current)), FatName(name), q)
      ensures h.Some? ==> h.value < MAX_FILE_HANDLE && Standing(before, files[h.value], h.value, e, clusters)
      ensures h.Some? ==> LedBy(driver.volume, old(DirectoryOf(driver.volume, current)), names, r, e, clusters)
      ensures current != root ==> root.State() == old(root.State())
      ensures current == root ==> RootRewound(old(root.source), old(DirectoryOf(driver.volume, root)), name)
    {
      hide Valid, InUse, AllInUse, Standing, RootRewound, DirectoryOf, OpenAt, LedBy, HasClusters, WellFormedAlong, FoundAt, Named,
        Decode, RecordAt, FatName, Convertible, FileDesc.State, FileDesc.Shaped, FileDesc.Intact, FileDesc.Limit;
      ghost var dir := DirectoryOf(driver.volume, current);
      HandlesApart(before, current, k);
      FirstConvertible(driver.volume, dir, names);
      var found, entry;
      found, entry, r := LookUp(current, name);
      SameHandles(before);
      h, e, clusters := None, entry, [];
      if found {
        clusters := ChainOf(driver.volume, dir, names, r);
        h := OpenEntry(entry, clusters);
        if h.Some? {
          StandsAt(before, h.value, entry, clusters);
        }
      } else {
        NotNamedNotFound(driver.volume, dir, FatName(name));
      }
    }

    /** Descriptors and buffers other than those of the current directory. */
    lemma HandlesApart(before: set<int>, current: FileDesc, k: nat)
      requires Valid()
      requires if current == root then InUse() == before
        else k < MAX_FILE_HANDLE && current == files[k] && k !in before && InUse() == before + {k}
      ensures |files| == MAX_FILE_HANDLE && driver.volume.clusterSectors > 0 && (current == root || current in files)
      ensures forall h :: h in before ==> 0 <= h < MAX_FILE_HANDLE && files[h] != current && files[h].buffer != current.buffer
      ensures root !in files && root.buffer !in Buffers() && (current != root ==> root.buffer != current.buffer)
      ensures current != root ==> current == files[k] && InUse() - {k} == before && current.buffer in Buffers()
      ensures DirectoryOf(driver.volume, current).src == current.source
    {
    }

    lemma StandsAt(before: set<int>, h: nat, e: DirEntry, clusters: seq<nat>)
      requires Valid() && h < MAX_FILE_HANDLE && h !in before && InUse() == before + {h}
      requires HasClusters(driver.volume, e, clusters) && OpenAt(files[h], driver.volume, e, clusters)
      ensures Standing(before, files[h], h, e, clusters) && files[h] != root
    {
      hide HasClusters, OpenAt;
    }

    lemma ValidMeans()
      requires Valid()
      ensures |files| == MAX_FILE_HANDLE && driver.volume.clusterSectors > 0
      ensures root !in files && root.buffer !in Buffers()
    {
    }

    lemma FreeHandleExists(before: set<int>)
      requires Valid() && InUse() == before && !AllInUse()
      ensures exists k :: 0 <= k < MAX_FILE_HANDLE && k !in before
      ensures forall k :: k in before ==> 0 <= k < MAX_FILE_HANDLE
    {
      SameHandles(before);
    }

    lemma StandsAtRoot(before: set<int>, h: nat, e: DirEntry, clusters: seq<nat>)
      requires Valid() && InUse() == before
      ensures Standing(before, root, h, e, clusters)
    {
    }

    lemma StandingMeans(before: set<int>, current: FileDesc, h: nat, e: DirEntry, clusters: seq<nat>)
      requires Valid() && Standing(before, current, h, e, clusters)
      ensures if current == root then InUse() == before
        else h < MAX_FILE_HANDLE && current == files[h] && h !in before && InUse() == before + {h}
    {
    }

    /** One turn of the loop of `fat_open`: the first name of the path is looked up, and `rest` of the path is left. */
    method OpenNext(current: FileDesc, path: seq<byte>, ghost before: set<int>, ghost k: nat, ghost last: DirEntry,
                    ghost top: Directory, ghost names: seq<seq<byte>>)
      returns (d: Option<FileDesc>, rest: seq<byte>, ghost h: nat, ghost e: DirEntry, ghost clusters: seq<nat>)
      requires Valid() && Reliable(driver) && path != []
      requires if current == root then InUse() == before
        else k < MAX_FILE_HANDLE && current == files[k] && k !in before && InUse() == before + {k}
      requires exists k :: 0 <= k < MAX_FILE_HANDLE && k !in before
      requires current.Shaped(driver.volume) && current.Intact(driver.volume) && current.pos == 0
      requires WellFormedAlong(driver.volume, DirectoryOf(driver.volume, current), Components(path))
      requires SameResult(driver.volume, top, names, DirectoryOf(driver.volume, current), Components(path), last)
      modifies driver`readCount, (if current == root then {root, root.buffer} else {}), files, Buffers()
      ensures Valid() && |rest| < |path| && Convertible(Components(path)[0])
      ensures forall k :: k in before && 0 <= k < MAX_FILE_HANDLE ==> files[k].State() == old(files[k].State())
      ensures d.None? ==> InUse() == before && NoSuchPath(driver.volume, top, names)
      ensures d.Some? ==>
        && d.value != root && Standing(before, d.value, h, e, clusters)
        && d.value.Shaped(driver.volume) && d.value.Intact(driver.volume) && d.value.pos == 0
        && WellFormedAlong(driver.volume, DirectoryOf(driver.volume, d.value), Components(rest))
        && SameResult(driver.volume, top, names, DirectoryOf(driver.volume, d.value), Components(rest), e)
      ensures current == root ==>
        RootRewound(old(root.source), old(DirectoryOf(driver.volume, root)), Components(path)[0])
    {
      hide OpenAt, FileDesc.State, Volume.IsChain, FatName, RecordAt, Resolves, WellFormedAlong, FoundAt, FileDesc.Intact,
        FileDesc.Shaped, Continues, NoSuchPath, IndexOf, LedBy, SameResult, DirectoryOf, RootRewound, HasClusters;
      ghost var v, dir, all := driver.volume, DirectoryOf(driver.volume, current), Components(path);
      var delim := IndexOf(path, SLASH);
      var name := if delim < |path| then path[..delim] else path;
      rest := if delim < |path| then path[delim + 1..] else [];
      assert all == [name] + Components(rest);
      FirstConvertible(v, dir, all);
      var handle;
      ghost var r;
      handle, e, clusters, r := Descend(current, name, before, k, all);
      h, d := 0, None;
      if handle.None? {
        NotResolved(v, top, names, dir, all, last);
      } else {
        ResolvesStep(v, top, names, dir, all, last, r, e, clusters);
        h, d := handle.value, Some(files[handle.value]);
        OpenDirectory(d.value, v, e, clusters);
      }
    }

    /**
      `fat_open`: follows a path from the root directory. `h` is the handle taken, `e` the entry found.
      Success takes exactly one more handle, failure none, whatever the depth of the path.
     */
    method Open(fullPath: seq<byte>) returns (d: Option<FileDesc>, ghost h: nat, ghost e: DirEntry, ghost clusters: seq<nat>)
      requires Valid() && Reliable(driver) && !AllInUse()
      requires root.Shaped(driver.volume) && root.Intact(driver.volume) && root.pos == 0
      requires WellFormedAlong(driver.volume, DirectoryOf(driver.volume, root), Components(WithoutLeadingSlash(fullPath)))
      modifies driver`readCount, root, root.buffer, files, Buffers()
      ensures Valid()
      ensures forall k :: k in old(InUse()) ==> files[k].State() == old(files[k].State())
      ensures WithoutLeadingSlash(fullPath) == [] ==> d == Some(root) && InUse() == old(InUse())
      ensures d.None? ==> InUse() == old(InUse())
      ensures d.None? ==>
        NoSuchPath(driver.volume, old(DirectoryOf(driver.volume, root)), Components(WithoutLeadingSlash(fullPath)))
      ensures WithoutLeadingSlash(fullPath) == [] ==> root.State() == old(root.State())
      ensures WithoutLeadingSlash(fullPath) != [] ==>
        Convertible(Components(WithoutLeadingSlash(fullPath))[0]) &&
        RootRewound(old(root.source), old(DirectoryOf(driver.volume, root)), Components(WithoutLeadingSlash(fullPath))[0])
      ensures WithoutLeadingSlash(fullPath) != [] && d.Some? ==> d.value != root
      ensures WithoutLeadingSlash(fullPath) != [] && d.Some? ==> Standing(old(InUse()), d.value, h, e, clusters)
      ensures WithoutLeadingSlash(fullPath) != [] && d.Some? ==>
        Resolves(driver.volume, old(DirectoryOf(driver.volume, root)), Components(WithoutLeadingSlash(fullPath)), e)
    {
      hide OpenAt, FileDesc.State, Volume.IsChain, FatName, RecordAt, Resolves, WellFormedAlong, FoundAt, FileDesc.Intact,
        FileDesc.Shaped, NoSuchPath, IndexOf, SameResult, DirectoryOf, RootRewound, HasClusters, Components, Valid, InUse, AllInUse,
        Standing, Convertible, Decode, Named, FileDesc.Limit, Reliable;
      ValidMeans();
      var path := fullPath;
      if |path| > 0 && path[0] == SLASH {
        path := path[1..];
      }
      ghost var v, top, names, before := driver.volume, DirectoryOf(driver.volume, root), Components(path), InUse();
      ghost var src := root.source;
      RootFlat();
      h, e, clusters := 0, DirEntry([], 0, 0, 0), [];
      SameHandles(before);
      FreeHandleExists(before);
      StandsAtRoot(before, h, e, clusters);
      StartsAt(v, top, path, e);
      assert path == WithoutLeadingSlash(fullPath);
      d := Some(root);
      while path != []
        invariant Valid() && (forall k :: k in before ==> files[k].State() == old(files[k].State()))
        invariant d.Some? && Standing(before, d.value, h, e, clusters)
        invariant d.value.Shaped(v) && d.value.Intact(v) && d.value.pos == 0
        invariant WellFormedAlong(v, DirectoryOf(v, d.value), Components(path))
        invariant if d.value == root
          then path == WithoutLeadingSlash(fullPath) && root.State() == old(root.State()) && root.source == src
            && DirectoryOf(v, root) == top
          else WithoutLeadingSlash(fullPath) != [] && Convertible(names[0]) && RootRewound(src, top, names[0])
        invariant d.value != root || path != [] ==> SameResult(v, top, names, DirectoryOf(v, d.value), Components(path), e)
        decreases |path|
      {
        StandingMeans(before, d.value, h, e, clusters);
        d, path, h, e, clusters := OpenNext(d.value, path, before, h, e, top, names);
        if d.None? {
          return;
        }
      }
      StandingMeans(before, d.value, h, e, clusters);
      if d.value != root {
        NothingLeft();
        ResolvedTo(v, top, names, DirectoryOf(v, d.value), e);
      }
    }

    /** Reading through one handle leaves cursor and buffer of every other handle, and of the root, as they were. */
    method ReadHandle(h: nat, n: nat) returns (data: seq<byte>)
      requires Valid() && h < MAX_FILE_HANDLE && files[h].Shaped(driver.volume) && files[h].Intact(driver.volume)
      modifies driver`readCount, files[h], files[h].buffer
      ensures Valid() && InUse() == old(InUse())
      ensures forall k :: 0 <= k < MAX_FILE_HANDLE && k != h ==> files[k].State() == old(files[k].State())
      ensures root.State() == old(root.State())
      ensures Matches(driver.volume, files[h].source, old(files[h].pos), data)
      ensures files[h].pos == old(files[h].pos) + |data| && |data| <= n
      ensures Reliable(driver) ==> |data| == n || files[h].pos == files[h].Limit(driver.volume)
    {
      hide Matches, Volume.IsChain, FileDesc.Loaded;
      data := driver.Read(files[h], n);
    }
  }

  /** A descriptor at the start of the file or directory an entry describes. */
  ghost predicate OpenAt(d: FileDesc, v: Volume, e: DirEntry, clusters: seq<nat>)
    reads d, d.buffer
  {
    && v.clusterSectors > 0 && d.Shaped(v) && d.Intact(v)
    && d.source == Chained(clusters) && d.firstCluster == e.firstCluster
    && d.isDir == e.IsDirectory() && d.size == e.size && d.pos == 0
  }

  /** A descriptor set to an entry, with its first sector in the buffer if it has one. */
  lemma Opened(d: FileDesc, v: Volume, e: DirEntry, clusters: seq<nat>)
    requires v.clusterSectors > 0 && HasClusters(v, e, clusters) && d.buffer.Length == SECTOR_SIZE && !d.isRoot
    requires d.source == Chained(clusters) && d.isDir == e.IsDirectory() && d.size == e.size && d.pos == 0
    requires d.firstCluster == d.curCluster == e.firstCluster && d.curSectorInCluster == 0
    requires d.buffer[..] == v.disk(v.ClusterToLba(e.firstCluster))
    ensures OpenAt(d, v, e, clusters)
  {
    FirstSector(v, e, clusters);
    hide HasClusters, Volume.IsChain, Volume.SectorLba, Volume.HasSector;
    FirstIndex(v);
  }

  lemma FirstIndex(v: Volume)
    requires v.clusterSectors > 0
    ensures v.ClusterIndex(0) == 0 && v.SectorIndex(0) == 0
  {
  }

  lemma FirstSector(v: Volume, e: DirEntry, clusters: seq<nat>)
    requires v.clusterSectors > 0 && HasClusters(v, e, clusters)
    ensures clusters == [] || v.IsChain(e.firstCluster, clusters)
    ensures clusters == [] <==> !e.IsDirectory() && e.size == 0
    ensures clusters != [] ==>
      && clusters[0] == e.firstCluster && v.HasSector(Chained(clusters), 0)
      && 0 < |clusters| * v.clusterSectors * SECTOR_SIZE
      && v.SectorLba(Chained(clusters), 0) == v.ClusterToLba(clusters[0])
  {
    hide Volume.SectorLba, Volume.HasSector, Volume.ClusterToLba;
    if clusters != [] {
      SectorZero(v, clusters);
    }
  }

  lemma SectorZero(v: Volume, clusters: seq<nat>)
    requires v.clusterSectors > 0 && clusters != []
    ensures v.HasSector(Chained(clusters), 0) && 0 < |clusters| * v.clusterSectors * SECTOR_SIZE
    ensures v.SectorLba(Chained(clusters), 0) == v.ClusterToLba(clusters[0])
  {
    MulLe(1, |clusters|, v.clusterSectors);
    FirstIndex(v);
  }

  /** The first name is found in record `r`, which is the entry `e` with its chain. */
  ghost predicate LedBy(v: Volume, dir: Directory, names: seq<seq<byte>>, r: nat, e: DirEntry, clusters: seq<nat>)
    requires v.clusterSectors > 0 && names != []
  {
    && Convertible(names[0]) && FoundAt(v, dir, FatName(names[0]), r) && e == Decode(RecordAt(v, dir.src, r))
    && HasClusters(v, e, clusters)
    && WellFormedAlong(v, AsDirectory(v, e, clusters), names[1..])
  }

  lemma ChainOf(v: Volume, dir: Directory, names: seq<seq<byte>>, r: nat) returns (clusters: seq<nat>)
    requires v.clusterSectors > 0 && names != [] && WellFormedAlong(v, dir, names)
    requires FoundAt(v, dir, FatName(names[0]), r)
    ensures HasClusters(v, Decode(RecordAt(v, dir.src, r)), clusters)
    ensures LedBy(v, dir, names, r, Decode(RecordAt(v, dir.src, r)), clusters)
  {
    hide Decode, RecordAt, HasClusters;
    clusters :| HasClusters(v, Decode(RecordAt(v, dir.src, r)), clusters) &&
      WellFormedAlong(v, AsDirectory(v, Decode(RecordAt(v, dir.src, r)), clusters), names[1..]);
  }

  ghost predicate NoSuchPath(v: Volume, dir: Directory, names: seq<seq<byte>>)
    requires v.clusterSectors > 0
  {
    forall x :: !Resolves(v, dir, names, x)
  }

  /** What is left to resolve: nothing, and `last` is the result, or more names in `dir`. */
  ghost predicate Continues(v: Volume, dir: Directory, names: seq<seq<byte>>, last: DirEntry, x: DirEntry)
    requires v.clusterSectors > 0
  {
    if names == [] then x == last else Resolves(v, dir, names, x)
  }

  /** Resolving `names` from `top` comes to the same as continuing with `rest` from `dir`. */
  ghost predicate SameResult(v: Volume, top: Directory, names: seq<seq<byte>>, dir: Directory, rest: seq<seq<byte>>, last: DirEntry)
    requires v.clusterSectors > 0
  {
    forall x :: Resolves(v, top, names, x) <==> Continues(v, dir, rest, last, x)
  }

  lemma StartsAt(v: Volume, top: Directory, path: seq<byte>, last: DirEntry)
    requires v.clusterSectors > 0
    ensures path != [] ==> Components(path) != [] && SameResult(v, top, Components(path), top, Components(path), last)
  {
  }

  lemma NothingLeft()
    ensures Components([]) == []
  {
  }

  lemma ResolvedTo(v: Volume, top: Directory, names: seq<seq<byte>>, dir: Directory, last: DirEntry)
    requires v.clusterSectors > 0 && SameResult(v, top, names, dir, [], last)
    ensures Resolves(v, top, names, last)
  {
    assert Continues(v, dir, [], last, last);
  }

  /** Looking up the next name settles how the rest is resolved. */
  lemma ResolvesStep(v: Volume, top: Directory, names: seq<seq<byte>>, dir: Directory, rest: seq<seq<byte>>,
                     last: DirEntry, r: nat, e: DirEntry, clusters: seq<nat>)
    requires v.clusterSectors > 0 && rest != [] && LedBy(v, dir, rest, r, e, clusters)
    requires SameResult(v, top, names, dir, rest, last)
    ensures SameResult(v, top, names, AsDirectory(v, e, clusters), rest[1..], e)
    ensures WellFormedAlong(v, AsDirectory(v, e, clusters), rest[1..])
  {
    hide FatName, RecordAt, Decode, HasClusters;
    forall x
      ensures Resolves(v, top, names, x) <==> Continues(v, AsDirectory(v, e, clusters), rest[1..], e, x)
    {
      assert Resolves(v, top, names, x) <==> Continues(v, dir, rest, last, x);
      LookupStep(v, dir, rest, r, clusters, x);
    }
  }

  lemma LookupStep(v: Volume, dir: Directory, names: seq<seq<byte>>, r: nat, clusters: seq<nat>, x: DirEntry)
    requires v.clusterSectors > 0 && names != [] && Convertible(names[0]) && FoundAt(v, dir, FatName(names[0]), r)
    requires HasClusters(v, Decode(RecordAt(v, dir.src, r)), clusters)
    ensures var found := Decode(RecordAt(v, dir.src, r));
      Resolves(v, dir, names, x) <==> Continues(v, AsDirectory(v, found, clusters), names[1..], found, x)
  {
    hide FatName, RecordAt, Decode, HasClusters;
    var found := Decode(RecordAt(v, dir.src, r));
    if Resolves(v, dir, names, x) {
      var q: nat :| FoundAt(v, dir, FatName(names[0]), q) && LeadsTo(v, dir, q, names[1..], x);
      FoundOnce(v, dir, FatName(names[0]), r, q);
      if names[1..] != [] {
        var c :| HasClusters(v, found, c) && Resolves(v, AsDirectory(v, found, c), names[1..], x);
        ClustersOnce(v, found, clusters, c);
      }
    }
    if Continues(v, AsDirectory(v, found, clusters), names[1..], found, x) {
      assert LeadsTo(v, dir, r, names[1..], x);
    }
  }

  lemma NotNamedNotFound(v: Volume, dir: Directory, name: seq<byte>)
    requires v.clusterSectors > 0 && forall q: nat :: !Named(v, dir, q, name)
    ensures forall q: nat :: !FoundAt(v, dir, name, q)
  {
    hide Named;
  }

  lemma FirstConvertible(v: Volume, dir: Directory, names: seq<seq<byte>>)
    requires v.clusterSectors > 0 && names != [] && WellFormedAlong(v, dir, names)
    ensures Convertible(names[0])
  {
  }

  lemma NotResolved(v: Volume, top: Directory, names: seq<seq<byte>>, dir: Directory, rest: seq<seq<byte>>, last: DirEntry)
    requires v.clusterSectors > 0 && rest != [] && Convertible(rest[0])
    requires SameResult(v, top, names, dir, rest, last)
    requires forall q: nat :: !FoundAt(v, dir, FatName(rest[0]), q)
    ensures NoSuchPath(v, top, names)
  {
    forall x
      ensures !Resolves(v, top, names, x)
    {
      assert Resolves(v, top, names, x) <==> Continues(v, dir, rest, last, x);
    }
  }

  lemma OpenDirectory(d: FileDesc, v: Volume, e: DirEntry, clusters: seq<nat>)
    requires OpenAt(d, v, e, clusters)
    ensures v.clusterSectors > 0 && d.Shaped(v) && d.Intact(v) && d.pos == 0
    ensures DirectoryOf(v, d) == AsDirectory(v, e, clusters)
  {
  }
}
