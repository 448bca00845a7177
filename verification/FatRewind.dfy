/** A disk on which a file can be opened once and not again, since closing the root directory leaves its buffer. */
module FatRewind {
  import opened Basics
  import opened FatTable
  import opened FatReader
  import opened FatDirectory
  import opened FatFiles
  import opened FatHandles
  import opened FatMount

  const ROOT_LBA: nat := 19
  const LETTER_A: byte := 65

  /** Sixteen records: fifteen empty ones, and the file `A` of one byte in cluster 2. */
  function RootSector(): sector {
    seq(SECTOR_SIZE, i requires 0 <= i < SECTOR_SIZE =>
      if i < 480 then 0
      else if i == 480 then LETTER_A
      else if i < 491 then SPACE
      else if i == 506 then 2
      else if i == 508 then 1
      else 0)
  }

  /** 512 bytes to a sector, one sector to a cluster, two tables of nine sectors, sixteen records in the root directory. */
  function FirstSector(): sector {
    seq(SECTOR_SIZE, i requires 0 <= i < SECTOR_SIZE =>
      if i == 12 then 2
      else if i == 13 || i == 14 then 1
      else if i == 16 then 2
      else if i == 17 then 16
      else if i == 22 then 9
      else 0)
  }

  /** The disk; every cluster of its table ends its chain. */
  function Sector(lba: nat): sector {
    if lba == 0 then FirstSector()
    else if lba < ROOT_LBA then seq(SECTOR_SIZE, _ => 0xFF)
    else if lba == ROOT_LBA then RootSector()
    else seq(SECTOR_SIZE, _ => 0)
  }

  const BOOT: BootSector := BootSector(512, 1, 1, 2, 16, 9)

  lemma Boots()
    ensures ParseBoot(Sector(0)) == BOOT && BOOT.Usable() && BOOT.FatFits()
    ensures BOOT.RootLba() == ROOT_LBA && BOOT.DataLba() == ROOT_LBA + 1 && BOOT.RootSize() == SECTOR_SIZE
  {
  }

  /** The volume as it is mounted; `before` is what memory held behind the table. */
  function OneFile(before: nat -> byte): Volume {
    VolumeOf(Sector, BOOT, before)
  }

  const NAME: seq<byte> := [LETTER_A]
  const STORED: Directory := Directory(Flat(ROOT_LBA, ROOT_LBA), SECTOR_SIZE)
  const SEEN: Directory := Directory(Flat(ROOT_LBA, ROOT_LBA + 1), SECTOR_SIZE)

  lemma RecordBytes(before: nat -> byte, dir: Directory, r: nat)
    requires (dir == STORED || dir == SEEN) && r < 16
    ensures HasRecord(OneFile(before), dir.src, r)
    ensures RecordAt(OneFile(before), dir.src, r)[0] == if dir == STORED && r == 15 then LETTER_A else 0
  {
    assert RECORD_SIZE * r / SECTOR_SIZE == 0 && RECORD_SIZE * r % SECTOR_SIZE == RECORD_SIZE * r;
    assert RecordAt(OneFile(before), dir.src, r)[0] == OneFile(before).ByteAt(dir.src, RECORD_SIZE * r + 0);
    assert RECORD_SIZE * r == 480 <==> r == 15;
    assert !(480 < RECORD_SIZE * r < 512);
  }

  lemma NameBytes()
    ensures Convertible(NAME) && |FatName(NAME)| == NAME_SIZE && FatName(NAME)[0] == LETTER_A
    ensures forall i :: 1 <= i < NAME_SIZE ==> FatName(NAME)[i] == SPACE
    ensures Components(NAME) == [NAME] && WithoutLeadingSlash(NAME) == NAME
  {
    assert NAME[1..] == [];
  }

  lemma LastRecord(before: nat -> byte)
    ensures HasRecord(OneFile(before), STORED.src, 15)
    ensures Decode(RecordAt(OneFile(before), STORED.src, 15)) == DirEntry(FatName(NAME), 0, 2, 1)
  {
    var s, name := RecordAt(OneFile(before), STORED.src, 15), FatName(NAME);
    NameBytes();
    forall i: nat | i < RECORD_SIZE
      ensures s[i] == RootSector()[480 + i]
    {
      assert (RECORD_SIZE * 15 + i) / SECTOR_SIZE == 0 && (RECORD_SIZE * 15 + i) % SECTOR_SIZE == 480 + i;
      assert s[i] == OneFile(before).ByteAt(STORED.src, RECORD_SIZE * 15 + i);
    }
    assert s[..NAME_SIZE] == name;
  }

  lemma OtherRecords(before: nat -> byte, dir: Directory, r: nat)
    requires (dir == STORED && r != 15) || dir == SEEN
    ensures !Named(OneFile(before), dir, r, FatName(NAME))
  {
    NameBytes();
    if r < 16 {
      RecordBytes(before, dir, r);
    }
  }

  /** The path leads to the file, and looking it up reads the only sector of the root directory to its end. */
  lemma PathResolves(before: nat -> byte)
    ensures Resolves(OneFile(before), STORED, [NAME], DirEntry(FatName(NAME), 0, 2, 1))
    ensures LookupEnd(OneFile(before), STORED, FatName(NAME)) == SECTOR_SIZE
    ensures WellFormedAlong(OneFile(before), STORED, [NAME])
  {
    var v, e := OneFile(before), DirEntry(FatName(NAME), 0, 2, 1);
    NameBytes();
    LastRecord(before);
    forall r: nat | r != 15
      ensures !Named(v, STORED, r, FatName(NAME))
    {
      OtherRecords(before, STORED, r);
    }
    hide FatName, RecordAt, Decode, NextCluster;
    assert FoundAt(v, STORED, FatName(NAME), 15);
    LookupEnds(v, STORED, FatName(NAME));
    assert LeadsTo(v, STORED, 15, [], e);
    OneCluster(before);
    assert HasClusters(v, e, [2]) && WellFormedAlong(v, AsDirectory(v, e, [2]), []);
    forall r: nat | FoundAt(v, STORED, FatName(NAME), r)
      ensures r == 15
    {
    }
  }

  lemma OneCluster(before: nat -> byte)
    ensures OneFile(before).IsChain(2, [2])
  {
    TableByte(before, 3);
    TableByte(before, 4);
    LastOfChain(OneFile(before).fat);
  }

  lemma TableByte(before: nat -> byte, i: nat)
    requires i < SECTOR_SIZE
    ensures OneFile(before).fat(i) == 0xFF
  {
    assert Sector(1 + i / SECTOR_SIZE)[i % SECTOR_SIZE] == 0xFF;
  }

  lemma LastOfChain(fat: nat -> byte)
    requires fat(3) == 0xFF && fat(4) == 0xFF
    ensures NextCluster(fat, 2) == 0xFFF
  {
  }

  /** After the rewind the same path leads nowhere. */
  lemma PathLost(before: nat -> byte)
    ensures Rewound(OneFile(before), STORED.src, SECTOR_SIZE) == SEEN.src
    ensures NoSuchPath(OneFile(before), SEEN, [NAME]) && WellFormedAlong(OneFile(before), SEEN, [NAME])
  {
    NameBytes();
    forall r: nat
      ensures !FoundAt(OneFile(before), SEEN, FatName(NAME), r)
    {
      OtherRecords(before, SEEN, r);
    }
  }

  /**
    Mounting the volume and opening the file twice: the first call succeeds, the second finds nothing, although no
    read fails and nothing has changed on disk.
   */
  method OpenTwice(before: nat -> byte) returns (first: Option<FileDesc>, second: Option<FileDesc>)
    ensures Resolves(OneFile(before), STORED, Components(NAME), DirEntry(FatName(NAME), 0, 2, 1))
    ensures first.Some? && second.None?
  {
    hide FileDesc.Intact, FileDesc.Shaped, FileDesc.State, FatName, Resolves, WellFormedAlong, LookupEnd, Components,
      Sector, ParseBoot, VolumeOf, BootSector.FatFits, BootSector.Usable;
    Boots();
    PathResolves(before);
    PathLost(before);
    NameBytes();
    var table := FatInit(Sector, (r: nat) => false, before);
    var t := table.value;
    assert t.driver.volume == OneFile(before) && Reliable(t.driver);
    Free(t, 0);
    ghost var h, e, clusters;
    first, h, e, clusters := t.Open(NAME);
    assert first.Some?;
    Free(t, h);
    second, h, e, clusters := t.Open(NAME);
  }

  /** With at most one file open a handle is free. */
  lemma Free(t: FileTable, h: nat)
    requires t.Valid() && t.InUse() <= {h}
    ensures !t.AllInUse()
  {
    var k := if h == 0 then 1 else 0;
    assert k !in t.InUse() && !t.files[k].inUse;
  }
}
