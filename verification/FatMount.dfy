/** `fat_init` of the loader: from the boot sector to the layout of the volume and the table of open files. */
module FatMount {
  import opened Basics
  import opened FatReader
  import opened FatDirectory
  import opened FatFiles
  import opened FatHandles

  const MEMORY_FAT_SIZE: nat := 0x1_0000
  const DRIVER_SIZE: nat := 6496 // boot sector and eleven descriptors

  /** The fields of the boot sector that place the regions of the volume. */
  datatype BootSector = BootSector(sectorBytes: nat, clusterSectors: nat, resSectors: nat, fats: nat, dirEntries: nat, fatSectors: nat) {

    predicate FatFits() {
      DRIVER_SIZE + sectorBytes * fatSectors < MEMORY_FAT_SIZE
    }

    function RootLba(): nat {
      resSectors + fatSectors * fats
    }

    function RootSize(): nat {
      RECORD_SIZE * dirEntries
    }

    function DataLba(): nat
      requires sectorBytes > 0
    {
      RootLba() + (RootSize() + sectorBytes - 1) / sectorBytes
    }

    /** What the driver relies on and does not check. */
    predicate Usable() {
      sectorBytes == SECTOR_SIZE && clusterSectors > 0 && dirEntries > 0
    }
  }

  function ParseBoot(s: sector): BootSector {
    BootSector(Half(s, 11), s[13], Half(s, 14), s[16], Half(s, 17), Half(s, 22))
  }

  /** The table in memory: the sectors read, their count cut to a byte, and what was there before behind them. */
  function LoadedFat(disk: nat -> sector, boot: BootSector, before: nat -> byte): nat -> byte {
    (i: nat) => if i < SECTOR_SIZE * (boot.fatSectors % 0x100) then disk(boot.resSectors + i / SECTOR_SIZE)[i % SECTOR_SIZE] else before(i)
  }

  function VolumeOf(disk: nat -> sector, boot: BootSector, before: nat -> byte): Volume
    requires boot.sectorBytes > 0
  {
    Volume(disk, LoadedFat(disk, boot, before), boot.DataLba(), boot.clusterSectors)
  }

  /** A table that passes the size check is read whole: cutting the count of its sectors to a byte loses nothing. */
  lemma WholeFatLoaded(disk: nat -> sector, boot: BootSector, before: nat -> byte, i: nat)
    requires boot.sectorBytes == SECTOR_SIZE && boot.FatFits() && i < SECTOR_SIZE * boot.fatSectors
    ensures LoadedFat(disk, boot, before)(i) == disk(boot.resSectors + i / SECTOR_SIZE)[i % SECTOR_SIZE]
  {
  }

  /** The root directory lies in front of the data: its last record is in the last sector before the first cluster. */
  lemma RootBeforeData(disk: nat -> sector, boot: BootSector, before: nat -> byte, r: nat)
    requires boot.Usable() && boot.DataLba() < UINT32 && r < boot.dirEntries
    ensures var v := VolumeOf(disk, boot, before);
      && v.SectorLba(Flat(boot.RootLba(), boot.RootLba()), RECORD_SIZE * r / SECTOR_SIZE) < v.ClusterToLba(2)
      && (r == boot.dirEntries - 1 ==>
           v.SectorLba(Flat(boot.RootLba(), boot.RootLba()), RECORD_SIZE * r / SECTOR_SIZE) + 1 == v.ClusterToLba(2))
  {
    RecordSectors(r, boot.dirEntries);
  }

  /** Sixteen records to a sector. */
  lemma RecordSectors(r: nat, n: nat)
    requires r < n
    ensures RECORD_SIZE * r / SECTOR_SIZE == r / 16 && (RECORD_SIZE * n + SECTOR_SIZE - 1) / SECTOR_SIZE == (n + 15) / 16
    ensures r / 16 < (n + 15) / 16 && (r == n - 1 ==> r / 16 + 1 == (n + 15) / 16)
  {
    Sixteenth(r, 0);
    Sixteenth(n, 511);
  }

  lemma Sixteenth(r: nat, d: nat)
    requires d < 512
    ensures (32 * r + d) / 512 == (r + d / 32) / 16
  {
    var q := (r + d / 32) / 16;
    assert 32 * r + d == 512 * q + 32 * ((r + d / 32) % 16) + d % 32;
  }

  /** Sectors of different clusters are different, and none belongs to the root directory or the tables. */
  lemma ClustersApart(v: Volume, c: nat, i: nat, d: nat, k: nat)
    requires 2 <= c && 2 <= d && i < v.clusterSectors && k < v.clusterSectors
    requires v.dataLba + (c - 1) * v.clusterSectors <= UINT32 && v.dataLba + (d - 1) * v.clusterSectors <= UINT32
    ensures v.ClusterToLba(c) + i == v.ClusterToLba(d) + k <==> c == d && i == k
    ensures v.dataLba <= v.ClusterToLba(c) && v.ClusterToLba(c) + i < UINT32
  {
    hide *;
    ClusterInRange(v, c);
    if c < d {
      ClusterOrder(v, c, d);
    } else if d < c {
      ClusterOrder(v, d, c);
    }
  }

  lemma ClusterInRange(v: Volume, c: nat)
    requires 2 <= c && v.clusterSectors > 0 && v.dataLba + (c - 1) * v.clusterSectors <= UINT32
    ensures v.dataLba <= v.ClusterToLba(c) && v.ClusterToLba(c) + v.clusterSectors <= UINT32
  {
    ClusterStart(v, c);
    MulLe(0, c - 2, v.clusterSectors);
  }

  lemma ClusterOrder(v: Volume, c: nat, d: nat)
    requires 2 <= c < d && v.clusterSectors > 0 && v.dataLba + (d - 1) * v.clusterSectors <= UINT32
    requires v.dataLba + (c - 1) * v.clusterSectors <= UINT32
    ensures v.ClusterToLba(c) + v.clusterSectors <= v.ClusterToLba(d)
  {
    ClusterStart(v, c);
    ClusterStart(v, d);
    hide Volume.ClusterToLba;
    ClusterBehind(v.clusterSectors, c - 2, d - 2);
  }

  lemma ClusterBehind(w: nat, c: nat, d: nat)
    requires c < d
    ensures c * w + w <= d * w
  {
    MulLe(c + 1, d, w);
    assert (c + 1) * w == c * w + w;
  }

  lemma ClusterStart(v: Volume, c: nat)
    requires 2 <= c && v.clusterSectors > 0 && v.dataLba + (c - 1) * v.clusterSectors <= UINT32
    ensures v.ClusterToLba(c) == v.dataLba + (c - 2) * v.clusterSectors
    ensures v.ClusterToLba(c) + v.clusterSectors <= UINT32
  {
    assert (c - 1) * v.clusterSectors == (c - 2) * v.clusterSectors + v.clusterSectors;
    MulLe(0, c - 2, v.clusterSectors);
  }

  /**
    `fat_init`. It fails exactly if one of its three reads fails or the table does not fit in memory; otherwise the
    root directory stands at its first sector and no file is open, which is what opening a path starts from.
   */
  method FatInit(disk: nat -> sector, fails: nat -> bool, before: nat -> byte) returns (table: Option<FileTable>)
    requires ParseBoot(disk(0)).sectorBytes > 0
    ensures table.None? <==> fails(0) || !ParseBoot(disk(0)).FatFits() || fails(1) || fails(2)
    ensures table.Some? && ParseBoot(disk(0)).Usable() ==>
      var t, boot := table.value, ParseBoot(disk(0));
      && t.Valid() && t.InUse() == {} && t.driver.volume == VolumeOf(disk, boot, before)
      && (forall r: nat :: t.driver.fails(r) == fails(3 + r)) && t.driver.readCount == 0
      && t.root.Shaped(t.driver.volume) && t.root.Intact(t.driver.volume) && t.root.pos == 0
      && DirectoryOf(t.driver.volume, t.root) == Directory(Flat(boot.RootLba(), boot.RootLba()), boot.RootSize())
    ensures table.Some? ==>
      && fresh(table.value) && fresh(table.value.driver) && fresh(table.value.root) && fresh(table.value.root.buffer)
      && forall i :: 0 <= i < |table.value.files| ==> fresh(table.value.files[i]) && fresh(table.value.files[i].buffer)
  {
    if fails(0) {
      return None;
    }
    var boot := ParseBoot(disk(0));
    if DRIVER_SIZE + boot.sectorBytes * boot.fatSectors >= MEMORY_FAT_SIZE {
      return None;
    }
    if fails(1) {
      return None;
    }
    if fails(2) {
      return None;
    }
    assert boot.FatFits();
    hide RootMounted;
    var root := MountRoot(disk, boot);
    var files := ClosedFiles(root);
    RootFields(disk, boot, root);
    hide *;
    var driver := new FatDriver(VolumeOf(disk, boot, before), (r: nat) => fails(3 + r));
    var t := new FileTable(driver, root, files);
    if boot.Usable() {
      VolumeClusters(disk, boot, before);
      NothingOpen(t);
      RootIntact(disk, boot, before, root);
    }
    table := Some(t);
  }

  /** The descriptor of the root directory, with its first sector in the buffer. */
  method MountRoot(disk: nat -> sector, boot: BootSector) returns (root: FileDesc)
    ensures fresh(root) && fresh(root.buffer) && RootMounted(disk, boot, root)
  {
    root := new FileDesc(true);
    root.isDir, root.pos, root.size, root.inUse := true, 0, boot.RootSize(), true;
    root.firstCluster, root.curCluster, root.curSectorInCluster := boot.RootLba(), boot.RootLba(), 0;
    root.source := Flat(boot.RootLba(), boot.RootLba());
    var first := disk(boot.RootLba());
    forall i | 0 <= i < SECTOR_SIZE {
      root.buffer[i] := first[i];
    }
    assert root.buffer[..] == first;
  }

  ghost predicate RootMounted(disk: nat -> sector, boot: BootSector, root: FileDesc)
    reads root, root.buffer
  {
    && root.isRoot && root.buffer.Length == SECTOR_SIZE && root.buffer[..] == disk(boot.RootLba())
    && root.isDir && root.pos == 0 && root.size == boot.RootSize()
    && root.firstCluster == root.curCluster == boot.RootLba() && root.source == Flat(boot.RootLba(), boot.RootLba())
  }

  lemma VolumeClusters(disk: nat -> sector, boot: BootSector, before: nat -> byte)
    requires boot.Usable()
    ensures boot.sectorBytes > 0 && VolumeOf(disk, boot, before).clusterSectors > 0
  {
    hide LoadedFat, BootSector.DataLba;
  }

  lemma NothingOpen(t: FileTable)
    requires |t.files| == MAX_FILE_HANDLE && t.root.isRoot && t.root.buffer.Length == SECTOR_SIZE
    requires t.driver.volume.clusterSectors > 0
    requires forall i :: 0 <= i < |t.files| ==>
      !t.files[i].isRoot && !t.files[i].inUse && t.files[i].buffer.Length == SECTOR_SIZE && t.files[i].buffer != t.root.buffer
    requires forall i, k :: 0 <= i < k < |t.files| ==> t.files[i] != t.files[k] && t.files[i].buffer != t.files[k].buffer
    ensures t.Valid() && t.InUse() == {}
  {
  }

  lemma RootFields(disk: nat -> sector, boot: BootSector, root: FileDesc)
    requires RootMounted(disk, boot, root)
    ensures root.isRoot && root.buffer.Length == SECTOR_SIZE && root.pos == 0
  {
  }

  lemma RootIntact(disk: nat -> sector, boot: BootSector, before: nat -> byte, root: FileDesc)
    requires boot.Usable() && RootMounted(disk, boot, root)
    ensures var v := VolumeOf(disk, boot, before);
      && root.Shaped(v) && root.Intact(v) && DirectoryOf(v, root) == Directory(Flat(boot.RootLba(), boot.RootLba()), boot.RootSize())
  {
    hide LoadedFat, BootSector.DataLba;
  }

  /** Ten descriptors, none of them in use. */
  method ClosedFiles(root: FileDesc) returns (files: seq<FileDesc>)
    ensures |files| == MAX_FILE_HANDLE
    ensures forall i :: 0 <= i < |files| ==> fresh(files[i]) && fresh(files[i].buffer)
    ensures forall i :: 0 <= i < |files| ==>
      !files[i].isRoot && !files[i].inUse && files[i].buffer.Length == SECTOR_SIZE && files[i].buffer != root.buffer
    ensures forall i, k :: 0 <= i < k < |files| ==> files[i] != files[k] && files[i].buffer != files[k].buffer
  {
    files := [];
    while |files| < MAX_FILE_HANDLE
      invariant |files| <= MAX_FILE_HANDLE
      invariant forall i :: 0 <= i < |files| ==> fresh(files[i]) && fresh(files[i].buffer)
      invariant forall i :: 0 <= i < |files| ==>
        !files[i].isRoot && !files[i].inUse && files[i].buffer.Length == SECTOR_SIZE && files[i].buffer != root.buffer
      invariant forall i, k :: 0 <= i < k < |files| ==> files[i] != files[k] && files[i].buffer != files[k].buffer
    {
      var d := new FileDesc(false);
      files := files + [d];
    }
  }
}
