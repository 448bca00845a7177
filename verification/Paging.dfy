/** Two-level address translation, and what the buddy allocator's page tables make of it. */
module Paging {
  import opened BuddyTree
  import opened BuddyGeometry
  import opened BuddySearch
  import opened BuddyAllocation

  const DIRECTORY_ENTRIES: nat := 1024
  const BUDDY_PAGE_TABLES: nat := 256
  const TABLE_SPAN: nat := 0x40_0000 // bytes one page table maps
  const FIRST_SLOT: nat := 512       // directory slot of address 0x80000000

  /** What an access does: it faults, or reaches an address, which may be writable and open to user mode. */
  datatype Access = Fault | Reach(address: nat, writable: bool, user: bool)

  /** Bitwise or of two 2-bit values. */
  function Or2(a: nat, b: nat): nat
    requires a < 4 && b < 4
  {
    if a == b then a
    else if a == 0 then b
    else if b == 0 then a
    else 3
  }

  /** `(page & ~0x3FF) | (v & 0xFFF)`: bits 31-12 of the page, bits 11-10 of either, bits 9-0 of the address. */
  function Combine(page: nat, v: nat): nat {
    page / 0x1000 * 0x1000 + Or2(page / 0x400 % 4, v / 0x400 % 4) * 0x400 + v % 0x400
  }

  lemma Or2IsOr(a: bv2, b: bv2)
    ensures Or2(a as nat, b as nat) == (a | b) as nat
  {
  }

  /** The combination by its bits: those of the entry above bit 11, those of the address below bit 10, both in between. */
  lemma CombineBits(page: nat, v: nat)
    ensures Combine(page, v) / 0x1000 == page / 0x1000
    ensures Combine(page, v) / 0x400 % 4 == Or2(page / 0x400 % 4, v / 0x400 % 4)
    ensures Combine(page, v) % 0x400 == v % 0x400
  {
    var o, r := Or2(page / 0x400 % 4, v / 0x400 % 4), v % 0x400;
    Split(page / 0x1000, o, r);
    hide Or2;
  }

  lemma Split(a: nat, o: nat, r: nat)
    requires o < 4 && r < 0x400
    ensures var x := a * 0x1000 + o * 0x400 + r; x / 0x1000 == a && x / 0x400 % 4 == o && x % 0x400 == r
  {
    var x := a * 0x1000 + o * 0x400 + r;
    assert x / 0x400 == 4 * a + o;
  }

  /** The frame the processor uses for a 4-KByte page (Intel SDM volume 3A, section 4.3). */
  function ProcessorCombine(page: nat, v: nat): nat {
    page / 0x1000 * 0x1000 + v % 0x1000
  }

  /**
    The translation keeps bits 10 and 11 of an entry, which belong to the flags. It agrees with
    the processor for every address exactly when both are zero.
   */
  lemma CombineAgreesIff(page: nat)
    ensures (forall v: nat :: Combine(page, v) == ProcessorCombine(page, v)) <==> page / 0x400 % 4 == 0
  {
    forall v: nat
      ensures v % 0x1000 == v / 0x400 % 4 * 0x400 + v % 0x400
    {
      LowBits(v);
    }
    assert Combine(page, 0) == ProcessorCombine(page, 0) ==> page / 0x400 % 4 == 0;
  }

  /** Address of the table entry that the code reads: it clears bits 9-0 of the directory entry. */
  function CodeSlot(pde: nat, v: nat): nat {
    pde / 0x400 * 0x400 + 4 * (v / PAGE % 1024)
  }

  /** Address of the table entry that the processor reads: bits 11-0 of the directory entry are no address bits. */
  function ProcessorSlot(pde: nat, v: nat): nat {
    pde / 0x1000 * 0x1000 + 4 * (v / PAGE % 1024)
  }

  /** `i686_physical_addr` from the directory entry on; `mem` gives the word at an address. */
  function CodeWalk(mem: nat -> nat, pde: nat, v: nat): nat {
    Combine(mem(CodeSlot(pde, v)), v)
  }

  /** The processor's translation through two levels (Intel SDM volume 3A, section 4.3). */
  function ProcessorWalk(mem: nat -> nat, pde: nat, v: nat): nat {
    ProcessorCombine(mem(ProcessorSlot(pde, v)), v)
  }

  /**
    An access through two levels: it faults unless bit 0 of both entries is set, may write if bit 1 of both is, and is
    open to user mode if bit 2 of both is (Intel SDM volume 3A, sections 4.3 and 4.6).
   */
  function ProcessorAccess(mem: nat -> nat, pde: nat, v: nat): Access {
    var pte := mem(ProcessorSlot(pde, v));
    if pde % 2 == 0 || pte % 2 == 0 then Fault
    else Reach(ProcessorWalk(mem, pde, v), pde / 2 % 2 == 1 && pte / 2 % 2 == 1, pde / 4 % 2 == 1 && pte / 4 % 2 == 1)
  }

  /** Both translations agree, in every memory and for every address whose table entry has `bits` in its bits 11-10. */
  ghost predicate WalksAgree(pde: nat, bits: nat) {
    forall mem: nat -> nat, v: nat :: mem(ProcessorSlot(pde, v)) / 0x400 % 4 == bits ==>
      CodeWalk(mem, pde, v) == ProcessorWalk(mem, pde, v)
  }

  /** That is so exactly when bits 10 and 11 of both entries, of the directory and of the table, are zero. */
  lemma WalkAgreesIff(pde: nat, bits: nat)
    requires bits < 4
    ensures WalksAgree(pde, bits) <==> pde / 0x400 % 4 == 0 && bits == 0
  {
    hide *;
    if pde / 0x400 % 4 == 0 && bits == 0 {
      WalksMeet(pde);
    } else {
      WalksDiffer(pde, bits);
    }
  }

  lemma SlotsAgree(pde: nat, v: nat)
    ensures CodeSlot(pde, v) == ProcessorSlot(pde, v) <==> pde / 0x400 % 4 == 0
  {
    LowBits(pde);
    Rest(pde);
  }

  lemma Rest(a: nat)
    ensures a / 0x400 * 0x400 == a - a % 0x400 && a / 0x1000 * 0x1000 == a - a % 0x1000
  {
  }

  lemma WalksMeet(pde: nat)
    requires pde / 0x400 % 4 == 0
    ensures WalksAgree(pde, 0)
  {
    hide CodeSlot, ProcessorSlot, Combine, ProcessorCombine;
    forall mem: nat -> nat, v: nat | mem(ProcessorSlot(pde, v)) / 0x400 % 4 == 0
      ensures CodeWalk(mem, pde, v) == ProcessorWalk(mem, pde, v)
    {
      SlotsAgree(pde, v);
      CombineAgreesIff(mem(CodeSlot(pde, v)));
    }
  }

  /** Address 0 with an entry whose bits above bit 11 are zero, and in page 1. */
  lemma FirstAddress(bits: nat, flags: nat)
    requires bits < 4 && flags < 0x400
    ensures Combine(bits * 0x400 + flags, 0) == bits * 0x400 && ProcessorCombine(bits * 0x400 + flags, 0) == 0
    ensures Combine(0x1000 + flags, 0) == 0x1000
  {
    Split(0, bits, flags);
    Split(1, 0, flags);
  }

  lemma WalksDiffer(pde: nat, bits: nat)
    requires bits < 4 && !(pde / 0x400 % 4 == 0 && bits == 0)
    ensures !WalksAgree(pde, bits)
  {
    SlotsAgree(pde, 0);
    FirstAddress(bits, 0);
    Split(0, bits, 0);
    hide CodeSlot, ProcessorSlot, Combine, ProcessorCombine;
    var mem := WitnessMemory(pde, bits);
    assert mem(ProcessorSlot(pde, 0)) == bits * 0x400;
    assert CodeWalk(mem, pde, 0) != ProcessorWalk(mem, pde, 0);
  }

  /** A memory that tells the walks apart at address 0. */
  function WitnessMemory(pde: nat, bits: nat): nat -> nat {
    (a: nat) => if a == ProcessorSlot(pde, 0) then bits * 0x400 else 0x1000
  }

  /** Where the processor translates, the code gives its address, in every memory. */
  ghost predicate AccessesAgree(pde: nat, bits: nat) {
    forall mem: nat -> nat, v: nat :: mem(ProcessorSlot(pde, v)) / 0x400 % 4 == bits && ProcessorAccess(mem, pde, v).Reach? ==>
      CodeWalk(mem, pde, v) == ProcessorAccess(mem, pde, v).address
  }

  /** That is so exactly when the four bits are zero, or the directory entry is not present and nothing is translated. */
  lemma AccessAgreesIff(pde: nat, bits: nat)
    requires bits < 4
    ensures AccessesAgree(pde, bits) <==> pde % 2 == 0 || (pde / 0x400 % 4 == 0 && bits == 0)
  {
    WalkAgreesIff(pde, bits);
    hide *;
    if pde / 0x400 % 4 == 0 && bits == 0 {
      AccessByWalk(pde, bits);
    } else if pde % 2 == 0 {
      AbsentAgrees(pde, bits);
    } else {
      AccessDiffers(pde, bits);
    }
  }

  lemma AccessByWalk(pde: nat, bits: nat)
    requires WalksAgree(pde, bits)
    ensures AccessesAgree(pde, bits)
  {
    hide CodeWalk, ProcessorWalk, ProcessorSlot;
  }

  lemma AbsentAgrees(pde: nat, bits: nat)
    requires pde % 2 == 0
    ensures AccessesAgree(pde, bits)
  {
    hide CodeWalk, ProcessorWalk, ProcessorSlot;
  }

  lemma AccessDiffers(pde: nat, bits: nat)
    requires bits < 4 && pde % 2 == 1 && !(pde / 0x400 % 4 == 0 && bits == 0)
    ensures !AccessesAgree(pde, bits)
  {
    var mem := PresentMemory(pde, bits);
    hide CodeSlot, CodeWalk, ProcessorWalk, ProcessorSlot, PresentMemory;
    SlotsAgree(pde, 0);
    PresentDiffers(pde, bits);
    PresentBit(bits);
    assert ProcessorAccess(mem, pde, 0).Reach?;
    assert CodeWalk(mem, pde, 0) != ProcessorAccess(mem, pde, 0).address;
  }

  lemma PresentBit(bits: nat)
    requires bits < 4
    ensures var e := bits * 0x400 + 1; e % 2 == 1 && e / 0x400 % 4 == bits
  {
    Split(0, bits, 1);
    Odd(bits * 0x200);
  }

  lemma PresentDiffers(pde: nat, bits: nat)
    requires bits < 4 && (CodeSlot(pde, 0) != ProcessorSlot(pde, 0) || bits != 0)
    ensures var mem := PresentMemory(pde, bits);
      mem(ProcessorSlot(pde, 0)) == bits * 0x400 + 1 && CodeWalk(mem, pde, 0) != ProcessorWalk(mem, pde, 0)
  {
    FirstAddress(bits, 1);
    hide CodeSlot, ProcessorSlot, Combine, ProcessorCombine;
  }

  /** A memory that tells them apart at address 0. */
  function PresentMemory(pde: nat, bits: nat): nat -> nat {
    (a: nat) => if a == ProcessorSlot(pde, 0) then bits * 0x400 + 1 else 0x1001
  }

  lemma WalkMapped(g: Geometry, mem: nat -> nat, table: nat, off: nat)
    requires table % PAGE == 0 && g.start % PAGE == 0
    requires mem(table + 4 * (off / PAGE % 1024)) == MappedEntry(g, off / PAGE)
    ensures CodeWalk(mem, table + PAGE_FLAGS, BUDDY_ALLOC_VIRADR + off) == g.start + off
    ensures ProcessorWalk(mem, table + PAGE_FLAGS, BUDDY_ALLOC_VIRADR + off) == g.start + off
    ensures ProcessorAccess(mem, table + PAGE_FLAGS, BUDDY_ALLOC_VIRADR + off) == Reach(g.start + off, true, false)
  {
    hide Combine, ProcessorCombine;
    var v := BUDDY_ALLOC_VIRADR + off;
    SlotOf(table, off);
    EntryTranslates(g.start, off / PAGE, v, off);
    Flags(table / PAGE);
    Flags(g.start / PAGE + off / PAGE);
    assert table + PAGE_FLAGS == 0x1000 * (table / PAGE) + 3;
    assert MappedEntry(g, off / PAGE) == 0x1000 * (g.start / PAGE + off / PAGE) + 3;
  }

  /** An entry with these flags is present and writable, and not open to user mode. */
  lemma Flags(a: nat)
    ensures var e := 0x1000 * a + 3; e % 2 == 1 && e / 2 % 2 == 1 && e / 4 % 2 == 0 && e % 0x1000 == 3
  {
    LowThree(0x200 * a);
  }

  lemma LowThree(b: nat)
    ensures var e := 8 * b + 3; e % 2 == 1 && e / 2 % 2 == 1 && e / 4 % 2 == 0
  {
    hide *;
    Odd(4 * b + 1);
    Odd(2 * b);
    Even(b);
    Quarter(2 * b);
  }

  lemma Odd(x: nat)
    ensures (2 * x + 1) / 2 == x && (2 * x + 1) % 2 == 1
  {
  }

  lemma Even(x: nat)
    ensures 2 * x % 2 == 0
  {
  }

  lemma Quarter(x: nat)
    ensures (4 * x + 3) / 4 == x
  {
  }

  lemma EntryParts(table: nat)
    requires table % 4096 == 0
    ensures (table + PAGE_FLAGS) / 4096 * 4096 == table && (table + PAGE_FLAGS) % 4096 == 3
  {
    var q := table / 4096;
    assert table == 4096 * q;
    assert (4096 * q + 3) / 4096 == q;
  }

  /** Both walks read the entry that the allocator wrote. */
  lemma SlotOf(table: nat, off: nat)
    requires table % PAGE == 0
    ensures CodeSlot(table + PAGE_FLAGS, BUDDY_ALLOC_VIRADR + off) == table + 4 * (off / PAGE % 1024)
    ensures ProcessorSlot(table + PAGE_FLAGS, BUDDY_ALLOC_VIRADR + off) == table + 4 * (off / PAGE % 1024)
  {
    AddressSlots(off);
    TableBase(table / PAGE);
  }

  lemma TableBase(a: nat)
    ensures (0x1000 * a + 3) / 0x400 * 0x400 == 0x1000 * a
    ensures (0x1000 * a + 3) / 0x1000 * 0x1000 == 0x1000 * a
  {
    assert (0x1000 * a + 3) / 0x400 == 4 * a && (0x1000 * a + 3) / 0x1000 == a;
  }

  /** What `buddy_free` leaves of an entry is a present, writable page: it leads to the first physical page. */
  lemma ReleasedLeadsToFrameZero(mem: nat -> nat, table: nat, off: nat)
    requires table % PAGE == 0 && mem(table + 4 * (off / PAGE % 1024)) == PAGE_FLAGS
    ensures CodeWalk(mem, table + PAGE_FLAGS, BUDDY_ALLOC_VIRADR + off) == off % PAGE
    ensures ProcessorWalk(mem, table + PAGE_FLAGS, BUDDY_ALLOC_VIRADR + off) == off % PAGE
    ensures ProcessorAccess(mem, table + PAGE_FLAGS, BUDDY_ALLOC_VIRADR + off) == Reach(off % PAGE, true, false)
  {
    SlotOf(table, off);
    FlagsAlone(off);
    Flags(table / PAGE);
    Flags(0);
    assert table + PAGE_FLAGS == 0x1000 * (table / PAGE) + 3;
    hide CodeSlot, ProcessorSlot, Combine, ProcessorCombine;
  }

  lemma FlagsAlone(off: nat)
    ensures Combine(PAGE_FLAGS, BUDDY_ALLOC_VIRADR + off) == ProcessorCombine(PAGE_FLAGS, BUDDY_ALLOC_VIRADR + off) == off % PAGE
  {
    LowBits(BUDDY_ALLOC_VIRADR + off);
    SameOffset(off);
    CombineAgreesIff(PAGE_FLAGS);
  }

  lemma SameOffset(off: nat)
    ensures (BUDDY_ALLOC_VIRADR + off) % 0x1000 == off % PAGE
  {
  }

  class Mmu {
    const directory: array<nat>
    /** Page table 0, which maps the kernel's own addresses. */
    const lowTable: array<nat>
    const buddy: BuddyAllocator
    /** Physical addresses of the allocator's page tables. */
    const tableAt: seq<nat>

    constructor (buddy: BuddyAllocator, tableAt: seq<nat>)
      ensures this.buddy == buddy && this.tableAt == tableAt && fresh(directory) && fresh(lowTable) && directory != lowTable
      ensures directory.Length == DIRECTORY_ENTRIES && lowTable.Length == 1024
    {
      this.buddy, this.tableAt := buddy, tableAt;
      directory := new nat[DIRECTORY_ENTRIES](_ => 2);
      lowTable := new nat[1024](_ => 2);
    }

    ghost predicate Shaped() {
      && directory.Length == DIRECTORY_ENTRIES && lowTable.Length == 1024 && directory != lowTable
      && directory != buddy.pageTables && lowTable != buddy.pageTables
      && buddy.geometry.Valid() && buddy.pageTables.Length == PAGE_TABLE_ENTRIES
      && |tableAt| == BUDDY_PAGE_TABLES && forall k :: 0 <= k < |tableAt| ==> tableAt[k] % PAGE == 0
    }

    /** The directory points to one of the allocator's tables for each 4 MB of the arena. */
    ghost predicate Installed()
      requires Shaped()
      reads directory
    {
      forall k :: 0 <= k < BUDDY_PAGE_TABLES && k * TABLE_SPAN < buddy.geometry.maxBlock ==>
        directory[FIRST_SLOT + k] == tableAt[k] + PAGE_FLAGS
    }

    /** The directory entry of 4 MB of the arena: their table, present and writable. */
    ghost predicate LeadsToTable(k: nat)
      requires Shaped() && k < 256
      reads directory
    {
      directory[512 + k] / 4096 * 4096 == tableAt[k] && directory[512 + k] % 4096 == 3
    }

    /** Entry of page table 0 that maps the page of table `k` to itself. */
    function LowSlot(k: nat): nat
      requires k < |tableAt|
    {
      tableAt[k] / PAGE % 1024
    }

    ghost predicate LastInSlot(k: nat, count: nat)
      requires count <= |tableAt|
    {
      k < count && forall i :: k < i < count ==> LowSlot(i) != LowSlot(k)
    }

    ghost predicate SlotUsed(j: int, count: nat)
      requires count <= |tableAt|
    {
      exists k :: 0 <= k < count && LowSlot(k) == j
    }

    lemma OneMore(index: nat, next: nat)
      requires index < |tableAt| && next == index + 1
      ensures forall k :: 0 <= k < index && LastInSlot(k, next) ==> LastInSlot(k, index) && LowSlot(k) != LowSlot(index)
      ensures forall j :: SlotUsed(j, next) <==> SlotUsed(j, index) || j == LowSlot(index)
    {
    }

    /** Number of tables the arena needs. */
    function Tables(): (n: nat)
      requires buddy.geometry.maxBlock <= PAGE * PAGE_TABLE_ENTRIES
      ensures n <= BUDDY_PAGE_TABLES
      ensures forall k: nat :: k < n <==> k * TABLE_SPAN < buddy.geometry.maxBlock
    {
      (buddy.geometry.maxBlock + TABLE_SPAN - 1) / TABLE_SPAN
    }

    method SetTable(index: nat)
      requires Shaped() && index < BUDDY_PAGE_TABLES
      modifies directory, lowTable
      ensures forall j :: 0 <= j < directory.Length ==>
        directory[j] == if j == FIRST_SLOT + index then tableAt[index] + PAGE_FLAGS else old(directory[j])
      ensures forall j :: 0 <= j < lowTable.Length ==>
        lowTable[j] == if j == LowSlot(index) then tableAt[index] + PAGE_FLAGS else old(lowTable[j])
    {
      var tablePhys := tableAt[index];
      directory[FIRST_SLOT + index] := tablePhys + PAGE_FLAGS;
      lowTable[tablePhys / PAGE % 1024] := tablePhys / PAGE * PAGE + PAGE_FLAGS;
    }

    /**
      The part of `buddy_init` that enters the allocator's tables into the page directory, and each of them into
      page table 0, where a later one can take the place of an earlier one.
     */
    method InstallTables()
      requires Shaped()
      modifies directory, lowTable
      ensures Installed()
      ensures forall k :: 0 <= k < Tables() ==> LeadsToTable(k)
      ensures forall j :: 0 <= j < DIRECTORY_ENTRIES && directory[j] != old(directory[j]) ==> 512 <= j <= 767
      ensures forall k :: 0 <= k < Tables() && LastInSlot(k, Tables()) ==> lowTable[LowSlot(k)] == tableAt[k] + PAGE_FLAGS
      ensures forall j :: 0 <= j < 1024 && !SlotUsed(j, Tables()) ==> lowTable[j] == old(lowTable[j])
    {
      hide LastInSlot, SlotUsed, LeadsToTable;
      var i, index := 0, 0;
      while i < buddy.geometry.maxBlock
        invariant i == index * TABLE_SPAN && index <= BUDDY_PAGE_TABLES
        invariant forall k :: 0 <= k < index ==> directory[FIRST_SLOT + k] == tableAt[k] + PAGE_FLAGS
        invariant forall j :: 0 <= j < DIRECTORY_ENTRIES && !(512 <= j < 512 + index) ==> directory[j] == old(directory[j])
        invariant forall k :: 0 <= k < index && LastInSlot(k, index) ==> lowTable[LowSlot(k)] == tableAt[k] + PAGE_FLAGS
        invariant forall j :: 0 <= j < 1024 && !SlotUsed(j, index) ==> lowTable[j] == old(lowTable[j])
        invariant i < buddy.geometry.maxBlock + TABLE_SPAN
      {
        SetTable(index);
        index := index + 1;
        OneMore(index - 1, index);
        i := i + TABLE_SPAN;
      }
      AllTables(index);
      DirectoryParts();
    }

    lemma AllTables(index: nat)
      requires buddy.geometry.maxBlock <= PAGE * PAGE_TABLE_ENTRIES
      requires index * TABLE_SPAN >= buddy.geometry.maxBlock > index * TABLE_SPAN - TABLE_SPAN
      ensures Tables() == index
    {
    }

    /** The two parts of the directory entries: where the table lies, and the flags present and writable. */
    lemma DirectoryParts()
      requires Shaped() && Installed()
      ensures forall k :: 0 <= k < Tables() ==> LeadsToTable(k)
    {
      forall k | 0 <= k < Tables()
        ensures LeadsToTable(k)
      {
        assert directory[FIRST_SLOT + k] == tableAt[k] + PAGE_FLAGS;
        EntryParts(tableAt[k]);
      }
    }

    /** The memory holds the allocator's page tables. */
    ghost predicate Stored(mem: nat -> nat)
      requires Shaped()
      reads buddy.pageTables
    {
      forall k, i :: 0 <= k < BUDDY_PAGE_TABLES && 0 <= i < 1024 ==> EntryStored(mem, k, i)
    }

    ghost predicate EntryStored(mem: nat -> nat, k: nat, i: nat)
      requires Shaped() && k < BUDDY_PAGE_TABLES && i < 1024
      reads buddy.pageTables
    {
      mem(tableAt[k] + 4 * i) == buddy.pageTables[1024 * k + i]
    }

    /** `i686_physical_addr`. */
    function PhysicalAddress(mem: nat -> nat, v: nat): nat
      requires v / TABLE_SPAN < directory.Length
      reads directory
    {
      CodeWalk(mem, directory[v / TABLE_SPAN], v)
    }

    /** Where the processor finds the byte at an address. */
    function ProcessorAddress(mem: nat -> nat, v: nat): nat
      requires v / TABLE_SPAN < directory.Length
      reads directory
    {
      ProcessorWalk(mem, directory[v / TABLE_SPAN], v)
    }

    /** What the processor does with an access to an address. */
    function AccessAt(mem: nat -> nat, v: nat): Access
      requires v / TABLE_SPAN < directory.Length
      reads directory
    {
      ProcessorAccess(mem, directory[v / TABLE_SPAN], v)
    }

    /** The entry the allocator wrote for a page of the arena is the one both walks read. */
    lemma EntryRead(mem: nat -> nat, off: nat)
      requires Shaped() && Installed() && Stored(mem) && off < buddy.geometry.maxBlock
      ensures off / PAGE < |buddy.pageTables[..]| && off / TABLE_SPAN < BUDDY_PAGE_TABLES
      ensures (BUDDY_ALLOC_VIRADR + off) / TABLE_SPAN == FIRST_SLOT + off / TABLE_SPAN < directory.Length
      ensures directory[FIRST_SLOT + off / TABLE_SPAN] == tableAt[off / TABLE_SPAN] + PAGE_FLAGS
      ensures mem(tableAt[off / TABLE_SPAN] + 4 * (off / PAGE % 1024)) == buddy.pageTables[off / PAGE]
    {
      AddressSlots(off);
      NestedQuotient(off);
      var k, i := off / TABLE_SPAN, off / PAGE % 1024;
      assert 1024 * k + i == off / PAGE;
      assert EntryStored(mem, k, i);
    }

    /**
      Every byte of every live block translates to its own offset in the arena, for the kernel and for the processor,
      which can read and write it in kernel mode only.
     */
    lemma LiveBytesTranslate(mem: nat -> nat, n: Node, off: nat)
      requires Shaped() && buddy.Valid() && Installed() && Stored(mem)
      requires buddy.geometry.minBlock % PAGE == 0 && n in buddy.live
      requires buddy.geometry.Offset(n) <= off < buddy.geometry.End(n)
      ensures (BUDDY_ALLOC_VIRADR + off) / TABLE_SPAN < directory.Length
      ensures PhysicalAddress(mem, BUDDY_ALLOC_VIRADR + off) == buddy.geometry.start + off
      ensures ProcessorAddress(mem, BUDDY_ALLOC_VIRADR + off) == buddy.geometry.start + off
      ensures AccessAt(mem, BUDDY_ALLOC_VIRADR + off) == Reach(buddy.geometry.start + off, true, false)
    {
      hide *;
      LiveEntry(n, off);
      MappedPage(mem, off);
    }

    /** The entry of a page that a live block owns. */
    lemma LiveEntry(n: Node, off: nat)
      requires Shaped() && buddy.Valid() && buddy.geometry.minBlock % PAGE == 0 && n in buddy.live
      requires buddy.geometry.Offset(n) <= off < buddy.geometry.End(n)
      ensures off < buddy.geometry.maxBlock && off / PAGE < buddy.pageTables.Length
      ensures buddy.pageTables[off / PAGE] == MappedEntry(buddy.geometry, off / PAGE)
    {
      BuddyFields();
      hide Mapped, Separate, BuddyAllocator.Valid, Shaped, Geometry.Valid, MappedEntry, Geometry.Offset, Geometry.End;
      LiveInTree(buddy.live, buddy.geometry.layers, n);
      SpanInArena(n, buddy.geometry);
      OwnedPage(buddy.geometry, buddy.live, n, buddy.pageTables[..], off);
    }

    lemma BuddyFields()
      requires Shaped() && buddy.Valid()
      ensures buddy.geometry.Valid() && Separate(buddy.live, buddy.geometry.layers)
      ensures Mapped(buddy.geometry, buddy.live, buddy.pageTables[..]) && buddy.pageTables.Length == PAGE_TABLE_ENTRIES
    {
      hide Separate, Mapped;
    }

    /** A page whose entry is that of its own place in the arena translates to it. */
    lemma MappedPage(mem: nat -> nat, off: nat)
      requires Shaped() && Installed() && Stored(mem) && off < buddy.geometry.maxBlock
      requires off / PAGE < buddy.pageTables.Length && buddy.pageTables[off / PAGE] == MappedEntry(buddy.geometry, off / PAGE)
      ensures (BUDDY_ALLOC_VIRADR + off) / TABLE_SPAN < directory.Length
      ensures PhysicalAddress(mem, BUDDY_ALLOC_VIRADR + off) == buddy.geometry.start + off
      ensures ProcessorAddress(mem, BUDDY_ALLOC_VIRADR + off) == buddy.geometry.start + off
      ensures AccessAt(mem, BUDDY_ALLOC_VIRADR + off) == Reach(buddy.geometry.start + off, true, false)
    {
      EntryRead(mem, off);
      assert buddy.geometry.start % PAGE == 0 && tableAt[off / TABLE_SPAN] % PAGE == 0;
      hide CodeWalk, ProcessorWalk, MappedEntry, Shaped, Installed, Stored, Geometry.Valid;
      WalkMapped(buddy.geometry, mem, tableAt[off / TABLE_SPAN], off);
    }

    /** So distinct live bytes never share physical memory. */
    lemma LiveBytesDistinct(mem: nat -> nat, n: Node, off: nat, m: Node, off': nat)
      requires Shaped() && buddy.Valid() && Installed() && Stored(mem)
      requires buddy.geometry.minBlock % PAGE == 0 && n in buddy.live && m in buddy.live
      requires buddy.geometry.Offset(n) <= off < buddy.geometry.End(n)
      requires buddy.geometry.Offset(m) <= off' < buddy.geometry.End(m)
      ensures (BUDDY_ALLOC_VIRADR + off) / TABLE_SPAN < directory.Length && (BUDDY_ALLOC_VIRADR + off') / TABLE_SPAN < directory.Length
      ensures PhysicalAddress(mem, BUDDY_ALLOC_VIRADR + off) == PhysicalAddress(mem, BUDDY_ALLOC_VIRADR + off') <==> off == off'
      ensures off == off' ==> n == m
    {
      LiveBytesTranslate(mem, n, off);
      LiveBytesTranslate(mem, m, off');
      if off == off' && n != m {
        if n.layer <= m.layer {
          DisjointSpans(n, m, buddy.geometry);
        } else {
          DisjointSpans(m, n, buddy.geometry);
        }
      }
    }

    /** A page whose entry `buddy_free` reset stays accessible, at the first physical page. */
    lemma ReleasedPage(mem: nat -> nat, off: nat)
      requires Shaped() && Installed() && Stored(mem) && off < buddy.geometry.maxBlock
      requires off / PAGE < buddy.pageTables.Length && buddy.pageTables[off / PAGE] == PAGE_FLAGS
      ensures (BUDDY_ALLOC_VIRADR + off) / TABLE_SPAN < directory.Length
      ensures PhysicalAddress(mem, BUDDY_ALLOC_VIRADR + off) == ProcessorAddress(mem, BUDDY_ALLOC_VIRADR + off) == off % PAGE
      ensures AccessAt(mem, BUDDY_ALLOC_VIRADR + off) == Reach(off % PAGE, true, false)
    {
      EntryRead(mem, off);
      hide CodeWalk, ProcessorWalk, ProcessorAccess;
      ReleasedLeadsToFrameZero(mem, tableAt[off / TABLE_SPAN], off);
    }

    /** That is what a release leaves of every page of the block it coalesced: readable and writable, at the first page. */
    lemma ReleasedBlock(mem: nat -> nat, f: Node, before: seq<nat>, off: nat)
      requires Shaped() && Installed() && Stored(mem) && InTree(f, buddy.geometry.layers)
      requires BlockRemapped(buddy.geometry, f, before, buddy.pageTables[..], false)
      requires off < buddy.geometry.maxBlock && InPages(buddy.geometry.Offset(f), buddy.geometry.BlockSize(f.layer), off / PAGE)
      ensures (BUDDY_ALLOC_VIRADR + off) / TABLE_SPAN < directory.Length
      ensures AccessAt(mem, BUDDY_ALLOC_VIRADR + off) == Reach(off % 4096, true, false)
    {
      hide ProcessorAccess, CodeWalk, ProcessorWalk, InPages;
      EntryRead(mem, off);
      assert buddy.pageTables[..][off / PAGE] == PAGE_FLAGS;
      ReleasedPage(mem, off);
    }
  }

  lemma AddressSlots(off: nat)
    ensures (BUDDY_ALLOC_VIRADR + off) / TABLE_SPAN == FIRST_SLOT + off / TABLE_SPAN
    ensures (BUDDY_ALLOC_VIRADR + off) / PAGE % 1024 == off / PAGE % 1024
  {
    var p, k := off / PAGE, off / TABLE_SPAN;
    assert (BUDDY_ALLOC_VIRADR + off) / PAGE == 1024 * FIRST_SLOT + p;
    ModuloTables(p);
  }

  lemma ModuloTables(p: nat)
    ensures (1024 * FIRST_SLOT + p) % 1024 == p % 1024
  {
  }

  lemma NestedQuotient(off: nat)
    ensures off / PAGE / 1024 == off / TABLE_SPAN
  {
    var p, k := off / PAGE, off / PAGE / 1024;
    assert off == PAGE * p + off % PAGE && p == 1024 * k + p % 1024;
    assert off == TABLE_SPAN * k + (PAGE * (p % 1024) + off % PAGE);
  }

  lemma LiveInTree(live: set<Node>, layers: nat, n: Node)
    requires Separate(live, layers) && n in live
    ensures InTree(n, layers)
  {
  }

  lemma OwnedPage(g: Geometry, live: set<Node>, n: Node, entries: seq<nat>, off: nat)
    requires g.Valid() && Separate(live, g.layers) && n in live && Mapped(g, live, entries)
    requires g.minBlock % PAGE == 0 && |entries| == PAGE_TABLE_ENTRIES
    requires g.Offset(n) <= off < g.End(n) <= g.maxBlock
    ensures off / PAGE < |entries| && entries[off / PAGE] == MappedEntry(g, off / PAGE)
  {
    PageAligned(g, n);
    assert OwnsPage(g, n, off / PAGE);
  }

  lemma EntryTranslates(start: nat, p: nat, v: nat, off: nat)
    requires start % PAGE == 0 && p == off / PAGE && v == BUDDY_ALLOC_VIRADR + off
    ensures Combine(start + PAGE * p + PAGE_FLAGS, v) == ProcessorCombine(start + PAGE * p + PAGE_FLAGS, v) == start + off
  {
    var a := start / PAGE + p;
    assert start + PAGE * p + PAGE_FLAGS == 0x1000 * a + 3;
    assert off == PAGE * p + off % PAGE;
    SameOffset(off);
    CombineEntry(a, v);
    hide Combine, ProcessorCombine;
  }

  /** A present, writable entry for frame `a`. */
  lemma CombineEntry(a: nat, v: nat)
    ensures Combine(0x1000 * a + 3, v) == ProcessorCombine(0x1000 * a + 3, v) == 0x1000 * a + v % 0x1000
  {
    TableBase(a);
    assert (0x1000 * a + 3) / 0x400 == 4 * a;
    FourFold(a);
    LowBits(v);
  }

  lemma FourFold(a: nat)
    ensures 4 * a % 4 == 0
  {
  }

  lemma LowBits(v: nat)
    ensures v / 0x400 % 4 * 0x400 + v % 0x400 == v % 0x1000
  {
    var q, r := v / 0x400, v % 0x400;
    var h, l := q / 4, q % 4;
    assert v == 0x400 * q + r && q == 4 * h + l;
    InFrame(h, l * 0x400 + r);
    assert v == 0x1000 * h + (l * 0x400 + r);
  }

  lemma InFrame(h: nat, s: nat)
    requires s < 0x1000
    ensures (0x1000 * h + s) % 0x1000 == s
  {
  }
}
