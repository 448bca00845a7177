/** Names, records, boot sectors and paths, byte by byte. */
module FatRecords {
  import opened Basics
  import opened FatTable
  import opened FatReader
  import opened FatDirectory
  import opened FatMount

  // ---- names ----

  /** Upper case by byte values: 97 to 122 are the small letters. */
  function Capital(c: byte): byte {
    if 97 <= c <= 122 then c - 32 else c
  }

  lemma DotAt(stem: seq<byte>, rest: seq<byte>)
    requires 46 !in stem
    ensures IndexOf(stem, DOT) == |stem|
    ensures IndexOf(stem + [46] + rest, DOT) == |stem|
  {
    var name := stem + [46] + rest;
    assert name[|stem|] == 46;
    forall k | 0 <= k < |stem|
      ensures name[k] != 46
    {
      assert name[k] == stem[k] && stem[k] in stem;
    }
  }

  /** A name without a dot: its first eight bytes in capitals, then spaces. */
  lemma NameAlone(stem: seq<byte>)
    requires 46 !in stem
    ensures Convertible(stem)
    ensures var s := FatName(stem);
      && (forall i :: 0 <= i < 8 && i < |stem| ==> s[i] == Capital(stem[i]))
      && (forall i :: 0 <= i < 11 && (i >= 8 || i >= |stem|) ==> s[i] == 32)
  {
    DotAt(stem, []);
  }

  /** A name with an extension: eight bytes for what is in front of the dot, and the first three of the extension in their order. */
  lemma NameWithExtension(stem: seq<byte>, ext: seq<byte>)
    requires 46 !in stem && |ext| >= 3
    ensures Convertible(stem + [46] + ext)
    ensures var s := FatName(stem + [46] + ext);
      && (forall i :: 0 <= i < 8 && i < |stem| ==> s[i] == Capital(stem[i]))
      && (forall i :: |stem| <= i < 8 ==> s[i] == 32)
      && s[8] == Capital(ext[0]) && s[9] == Capital(ext[1]) && s[10] == Capital(ext[2])
  {
    DotAt(stem, ext);
    var name := stem + [46] + ext;
    assert name[|stem| + 1] == ext[0] && name[|stem| + 2] == ext[1] && name[|stem| + 3] == ext[2];
  }

  /** An extension of one or two bytes, or of none behind a dot, is not converted completely. */
  lemma ShortExtension(stem: seq<byte>, ext: seq<byte>)
    requires 46 !in stem
    ensures Convertible(stem + [46] + ext) <==> |ext| >= 3
  {
    DotAt(stem, ext);
  }

  /** Every name with a dot has these parts. */
  lemma NameParts(name: seq<byte>) returns (stem: seq<byte>, ext: seq<byte>)
    requires 46 in name
    ensures 46 !in stem && name == stem + [46] + ext
  {
    var d := IndexOf(name, DOT);
    stem, ext := name[..d], name[d + 1..];
  }

  // ---- records ----

  /** The `k` bytes of a number, lowest first. */
  function LittleEndian(n: nat, k: nat): (s: seq<byte>)
    ensures |s| == k
  {
    if k == 0 then [] else [n % 256] + LittleEndian(n / 256, k - 1)
  }

  lemma TwoBytes(n: nat)
    ensures LittleEndian(n, 2) == [n % 256, n / 256 % 256]
  {
    assert LittleEndian(n / 256, 1) == [n / 256 % 256];
  }

  lemma FourBytes(n: nat)
    ensures LittleEndian(n, 4) == [n % 256, n / 256 % 256, n / 0x1_0000 % 256, n / 0x100_0000 % 256]
  {
    assert LittleEndian(n / 256, 3) == [n / 256 % 256] + LittleEndian(n / 256 / 256, 2);
    TwoBytes(n / 256 / 256);
    assert n / 256 / 256 == n / 0x1_0000 && n / 256 / 256 / 256 == n / 0x100_0000;
  }

  lemma HalfRead(s: seq<byte>, i: nat, n: nat)
    requires i + 2 <= |s| && s[i..i + 2] == LittleEndian(n, 2) && n < 0x1_0000
    ensures Half(s, i) == n
  {
    TwoBytes(n);
    assert s[i] == s[i..i + 2][0] && s[i + 1] == s[i..i + 2][1];
  }

  lemma Word32Read(s: seq<byte>, i: nat, n: nat)
    requires i + 4 <= |s| && s[i..i + 4] == LittleEndian(n, 4) && n < 0x1_0000_0000
    ensures Word32(s, i) == n
  {
    FourBytes(n);
    assert s[i] == s[i..i + 4][0] && s[i + 1] == s[i..i + 4][1];
    assert s[i + 2] == s[i..i + 4][2] && s[i + 3] == s[i..i + 4][3];
    SumOfBytes(n);
  }

  lemma SumOfBytes(n: nat)
    requires n < 0x1_0000_0000
    ensures n % 256 + 0x100 * (n / 256 % 256) + 0x1_0000 * (n / 0x1_0000 % 256) + 0x100_0000 * (n / 0x100_0000 % 256) == n
  {
    var q1, q2, q3 := n / 256, n / 0x1_0000, n / 0x100_0000;
    assert q1 / 256 == q2 && q2 / 256 == q3 && q3 < 256;
    assert n == 256 * q1 + n % 256 && q1 == 256 * q2 + q1 % 256 && q2 == 256 * q3 + q2 % 256;
  }

  /** A record as the FAT specification lays it out. */
  ghost predicate StoredRecord(s: seq<byte>, e: DirEntry) {
    && |s| == 32 && |e.name| == 11 && e.firstCluster < 0x1_0000_0000 && e.size < 0x1_0000_0000
    && s[0..11] == e.name && s[11] == e.attribute
    && s[20..22] == LittleEndian(e.firstCluster / 0x1_0000, 2)
    && s[26..28] == LittleEndian(e.firstCluster % 0x1_0000, 2)
    && s[28..32] == LittleEndian(e.size, 4)
  }

  /** The driver reads the entry that was stored. */
  lemma RecordRead(s: seq<byte>, e: DirEntry)
    requires StoredRecord(s, e)
    ensures Decode(s) == e
    ensures Decode(s).IsDirectory() <==> e.attribute as bv8 & 0x10 != 0
  {
    hide LittleEndian, Half, Word32;
    HalfRead(s, 20, e.firstCluster / 0x1_0000);
    HalfRead(s, 26, e.firstCluster % 0x1_0000);
    Word32Read(s, 28, e.size);
    DirectoryBit(e.attribute);
  }

  lemma DirectoryBit(a: byte)
    ensures a / 0x10 % 2 == 1 <==> a as bv8 & 0x10 != 0
  {
  }

  /** A boot sector as the FAT specification lays it out. */
  ghost predicate StoredBoot(s: sector, b: BootSector) {
    && b.clusterSectors < 256 && b.fats < 256
    && b.sectorBytes < 0x1_0000 && b.resSectors < 0x1_0000 && b.dirEntries < 0x1_0000 && b.fatSectors < 0x1_0000
    && s[11..13] == LittleEndian(b.sectorBytes, 2) && s[13] == b.clusterSectors
    && s[14..16] == LittleEndian(b.resSectors, 2) && s[16] == b.fats
    && s[17..19] == LittleEndian(b.dirEntries, 2) && s[22..24] == LittleEndian(b.fatSectors, 2)
  }

  lemma BootRead(s: sector, b: BootSector)
    requires StoredBoot(s, b)
    ensures ParseBoot(s) == b
  {
    hide LittleEndian, Half;
    HalfRead(s, 11, b.sectorBytes);
    HalfRead(s, 14, b.resSectors);
    HalfRead(s, 17, b.dirEntries);
    HalfRead(s, 22, b.fatSectors);
  }

  /** The reserved sectors, the tables one behind the other and the root directory follow each other without a gap. */
  lemma RegionsMeet(b: BootSector, t: nat)
    requires t < b.fats && b.fatSectors > 0
    ensures b.resSectors + t * b.fatSectors + b.fatSectors <= b.RootLba()
    ensures b.resSectors + t * b.fatSectors + b.fatSectors == b.RootLba() <==> t == b.fats - 1
  {
    MulLe(t + 1, b.fats, b.fatSectors);
    assert (t + 1) * b.fatSectors == t * b.fatSectors + b.fatSectors;
    if t + 1 < b.fats {
      MulLe(t + 2, b.fats, b.fatSectors);
      assert (t + 2) * b.fatSectors == (t + 1) * b.fatSectors + b.fatSectors;
    }
  }

  /** With sectors of 512 bytes there is room for tables of at most 115 sectors. */
  lemma RoomForTable(b: BootSector)
    ensures b.FatFits() <==> b.sectorBytes * b.fatSectors < 59040
    ensures b.sectorBytes == 512 ==> (b.FatFits() <==> b.fatSectors <= 115)
  {
  }

  // ---- paths ----

  /** One slash in front of a path does not matter. */
  lemma SlashInFront(path: seq<byte>)
    ensures WithoutLeadingSlash([47] + path) == path
    ensures path != [] && path[0] != 47 ==> WithoutLeadingSlash(path) == WithoutLeadingSlash([47] + path)
  {
    assert ([47] + path)[1..] == path;
  }

  /** Names with a slash between every two. */
  function Joined(names: seq<seq<byte>>): seq<byte> {
    if names == [] then []
    else if |names| == 1 then names[0]
    else names[0] + [47] + Joined(names[1..])
  }

  lemma JoinMore(head: seq<byte>, names: seq<seq<byte>>)
    requires names != []
    ensures Joined([head] + names) == head + [47] + Joined(names)
  {
    assert ([head] + names)[1..] == names;
  }

  lemma NameEnds(path: seq<byte>)
    ensures var i := IndexOf(path, SLASH); 47 !in path[..i] && (i < |path| ==> path[i] == 47)
  {
    var i := IndexOf(path, SLASH);
    assert forall k :: 0 <= k < i ==> path[k] != SLASH;
    hide *;
    forall b | b in path[..i]
      ensures b != 47
    {
      var k :| 0 <= k < i && path[..i][k] == b;
      assert path[k] == b;
    }
  }

  /** The first name of a path, and the rest. */
  lemma FirstName(path: seq<byte>)
    requires path != []
    ensures var i := IndexOf(path, SLASH);
      && 47 !in path[..i] && (i == |path| ==> Components(path) == [path])
      && (i < |path| ==> Components(path) == [path[..i]] + Components(path[i + 1..]) && path == path[..i] + [47] + path[i + 1..])
  {
    var i := IndexOf(path, SLASH);
    hide *;
    NameEnds(path);
    FirstComponent(path);
    if i < |path| {
      PartsOf(path, i);
    }
  }

  lemma PartsOf(path: seq<byte>, i: nat)
    requires i < |path|
    ensures path == path[..i] + [path[i]] + path[i + 1..]
  {
  }

  lemma FirstComponent(path: seq<byte>)
    requires path != []
    ensures var i := IndexOf(path, SLASH);
      Components(path) == if i == |path| then [path] else [path[..i]] + Components(path[i + 1..])
  {
    hide IndexOf;
  }

  /** The names of a path contain no slash, and the path is those names with slashes between them, but for a last one. */
  lemma {:induction false} ComponentsJoin(path: seq<byte>)
    ensures forall i :: 0 <= i < |Components(path)| ==> 47 !in Components(path)[i]
    ensures path == Joined(Components(path)) || path == Joined(Components(path)) + [47]
    decreases |path|
  {
    if path != [] {
      FirstName(path);
      hide Components, IndexOf;
      var i := IndexOf(path, SLASH);
      if i < |path| {
        var tail := path[i + 1..];
        ComponentsJoin(tail);
        if tail == [] {
          NoNames();
        } else {
          NamesLeft(tail);
          JoinMore(path[..i], Components(tail));
          assert path[..i] + [47] + (Joined(Components(tail)) + [47]) == path[..i] + [47] + Joined(Components(tail)) + [47];
        }
      }
    }
  }

  lemma NoNames()
    ensures Components([]) == []
  {
  }

  lemma NamesLeft(path: seq<byte>)
    requires path != []
    ensures Components(path) != []
  {
  }
}
