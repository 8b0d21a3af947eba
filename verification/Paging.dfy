/**
 The two-level page tables of the kernel (kernel/arch/x86/x32/memory/virtual_memory.c), laid
 out as section 4.3 of the Intel 64 and IA-32 Architectures Software Developer's Manual,
 Volume 3A, describes 32-bit paging.

 An entry is given by its two fields, the page number in bits 31 to 12 and the set of
 attribute bits below.  A table is memory reached through its virtual address.
 */
module Paging {
  import opened Common
  import opened Frames

  const ENTRIES: int := 1024
  const TABLE_SPACE: int := 0x40_0000
  /** Pages in the 32-bit address space. */
  const PAGES: int := 0x10_0000
  const MEMORY_INIT_MASK: int := 0x3F_FFFF
  /** Where the frames of a low request end: 16 MB, which is where the heap begins. */
  const LOW_MEMORY: int := 0x100_0000

  /** Bits 0 to 11 of an entry. */
  datatype Attribute =
    | Present | Write | User | WriteThrough | CacheDisable | Accessed
    | Dirty | Unused | Global | SystemMap | Inherited | Virtual

  datatype Entry = Entry(page: int, attrs: set<Attribute>)

  const ZERO_ENTRY: Entry := Entry(0, {})

  type Table = t: seq<Entry> | |t| == ENTRIES witness seq(ENTRIES, _ => ZERO_ENTRY)

  const ZERO_TABLE: Table := seq(ENTRIES, _ => ZERO_ENTRY)

  /** PAGE_DIRECTORY_INDEX and PAGE_TABLE_INDEX. */
  function DirIndex(v: int): int { v / TABLE_SPACE }

  function TableIndex(v: int): int { v / PAGE_SIZE % ENTRIES }

  function PageOf(v: int): int { v / PAGE_SIZE }

  lemma IndexesOfAddress(v: int)
    requires IsWord(v)
    ensures 0 <= DirIndex(v) < ENTRIES && 0 <= TableIndex(v) < ENTRIES
    ensures PageOf(v) == DirIndex(v) * ENTRIES + TableIndex(v)
    ensures PageOf(v) / ENTRIES == DirIndex(v) && PageOf(v) % ENTRIES == TableIndex(v)
    ensures 0 <= PageOf(v) < PAGES
  {
  }

  lemma NextPageOf(p: int, n: int)
    ensures (p + n * PAGE_SIZE) / PAGE_SIZE == p / PAGE_SIZE + n
  {
  }

  /** The pages behind v in its table, by index. */
  lemma NextIndex(v: int, i: int)
    requires TableIndex(v) <= i < ENTRIES
    ensures TableIndex(v + (i - TableIndex(v)) * PAGE_SIZE) == i
  {
    NextPageOf(v, i - TableIndex(v));
  }

  function EntryAt(trans: map<int, Entry>, page: int): Option<Entry> {
    if page in trans then Some(trans[page]) else None
  }

  class PageDirectory {
    const pTables: array<Entry>
    const vTables: array<int>
    /** The memory that page tables occupy, by virtual address. */
    var tables: map<int, Table>

    /** The directory index that each table serves. */
    ghost var Serves: map<int, int>
    /** Where the tables are; mapping a page through an existing table leaves it alone. */
    ghost var Tables: set<int>
    /** The translations in force, by page number. */
    ghost var Trans: map<int, Entry>

    predicate HasTable(d: int)
      requires 0 <= d < pTables.Length
      reads pTables
    {
      Present in pTables[d].attrs
    }

    ghost predicate TableOk(d: int)
      requires 0 <= d < pTables.Length == vTables.Length
      reads this, pTables, vTables
    {
      HasTable(d) ==>
        vTables[d] in tables && vTables[d] in Serves && Serves[vTables[d]] == d
    }

    ghost predicate Structured()
      reads this, pTables, vTables
    {
      && pTables.Length == ENTRIES && vTables.Length == ENTRIES
      && forall d :: 0 <= d < ENTRIES ==> TableOk(d)
    }

    /** The page table behind a directory entry. */
    function TableFor(d: int): Table
      requires 0 <= d < ENTRIES && Structured() && HasTable(d)
      reads this, pTables, vTables
    {
      assert TableOk(d);
      tables[vTables[d]]
    }

    /** The entry a walk of the two levels reaches. */
    ghost function Walk(page: int): Option<Entry>
      requires 0 <= page < PAGES && Structured()
      reads this, pTables, vTables
    {
      if !HasTable(page / ENTRIES) then None
      else
        var e := TableFor(page / ENTRIES)[page % ENTRIES];
        if Present in e.attrs then Some(e) else None
    }

    ghost predicate Valid()
      reads this, pTables, vTables
    {
      && Structured() && tables.Keys == Tables
      && (forall page :: page in Trans ==> 0 <= page < PAGES)
      && (forall page :: 0 <= page < PAGES ==> Walk(page) == EntryAt(Trans, page))
    }

    constructor ()
      ensures Valid() && Trans == map[] && Tables == {}
      ensures fresh(pTables) && fresh(vTables)
      ensures forall d :: 0 <= d < ENTRIES ==> !HasTable(d)
    {
      pTables := new Entry[ENTRIES](_ => ZERO_ENTRY);
      vTables := new int[ENTRIES](_ => 0);
      tables, Serves, Tables, Trans := map[], map[], {}, map[];
    }

    /** MmVirtualGetMapping: the physical address behind a virtual one, or 0. */
    function MmVirtualGetMapping(address: int): (physical: int)
      requires IsWord(address) && Valid()
      reads this, pTables, vTables
      ensures physical ==
        if PageOf(address) in Trans then Trans[PageOf(address)].page * PAGE_SIZE + address % PAGE_SIZE else 0
    {
      IndexesOfAddress(address);
      assert Walk(PageOf(address)) == EntryAt(Trans, PageOf(address));
      if !HasTable(DirIndex(address)) then 0
      else
        var entry := TableFor(DirIndex(address))[TableIndex(address)];
        if Present !in entry.attrs then 0
        else entry.page * PAGE_SIZE + address % PAGE_SIZE
    }

    /** The part of MmVirtualMap that writes the page entry. */
    method SetPage(address: int, physical: int, flags: set<Attribute>)
      requires IsWord(address) && Valid() && HasTable(DirIndex(address))
      modifies `Trans, `tables
      ensures Valid()
      ensures Trans == old(Trans)[PageOf(address) := Entry(physical / PAGE_SIZE, {Present, Write} + flags)]
    {
      IndexesOfAddress(address);
      var entry := Entry(physical / PAGE_SIZE, {Present, Write} + flags);
      var table := vTables[DirIndex(address)];
      assert TableOk(DirIndex(address));
      tables := tables[table := tables[table][TableIndex(address) := entry]];
      Trans := Trans[PageOf(address) := entry];
      forall d | 0 <= d < ENTRIES ensures TableOk(d) {
        assert old(TableOk(d));
      }
      forall page | 0 <= page < PAGES ensures Walk(page) == EntryAt(Trans, page) {
        assert old(Walk(page)) == EntryAt(old(Trans), page);
        assert TableOk(page / ENTRIES) && TableOk(DirIndex(address));
      }
    }

    /** A table goes into directory entry d; whatever was mapped through that entry is gone. */
    method InstallTable(d: int, entry: Entry, address: int, table: Table)
      requires Valid() && 0 <= d < ENTRIES && Present in entry.attrs
      requires forall c :: 0 <= c < ENTRIES && c != d && HasTable(c) ==> vTables[c] != address
      modifies `tables, `Tables, `Serves, `Trans, pTables, vTables
      ensures Valid() && HasTable(d) && pTables[d] == entry && vTables[d] == address
      ensures tables == old(tables)[address := table] && Tables == old(Tables) + {address}
      ensures forall c :: 0 <= c < ENTRIES && c != d ==> pTables[c] == old(pTables[c]) && vTables[c] == old(vTables[c])
      ensures forall page :: 0 <= page < PAGES ==>
        EntryAt(Trans, page) == if page / ENTRIES != d then EntryAt(old(Trans), page) else ThroughTable(table, page % ENTRIES)
    {
      hide Rerouted;
      ghost var trans := Trans;
      pTables[d] := entry;
      vTables[d] := address;
      tables := tables[address := table];
      Serves := Serves[address := d];
      Tables := Tables + {address};
      Trans := Rerouted(trans, d, table);
      forall c | 0 <= c < ENTRIES ensures TableOk(c) {
        assert old(TableOk(c));
      }
      forall page | 0 <= page < PAGES
        ensures Walk(page) == EntryAt(Trans, page)
        ensures EntryAt(Trans, page) == if page / ENTRIES != d then EntryAt(trans, page) else ThroughTable(table, page % ENTRIES)
      {
        assert old(Walk(page)) == EntryAt(trans, page);
        assert old(TableOk(page / ENTRIES));
      }
    }

    /** An absent directory entry gets an empty table: no translation changes. */
    method InstallEmptyTable(d: int, entry: Entry, address: int)
      requires Valid() && 0 <= d < ENTRIES && Present in entry.attrs && !HasTable(d)
      requires forall c :: 0 <= c < ENTRIES && c != d && HasTable(c) ==> vTables[c] != address
      modifies `tables, `Tables, `Serves, `Trans, pTables, vTables
      ensures Valid() && HasTable(d) && vTables[d] == address && pTables[d] == entry
      ensures tables == old(tables)[address := ZERO_TABLE] && Tables == old(Tables) + {address} && Trans == old(Trans)
      ensures forall c :: 0 <= c < ENTRIES && c != d ==> pTables[c] == old(pTables[c]) && vTables[c] == old(vTables[c])
    {
      ghost var trans := Trans;
      assert forall page :: 0 <= page < PAGES && page / ENTRIES == d ==> Walk(page) == EntryAt(trans, page) == None;
      InstallTable(d, entry, address, ZERO_TABLE);
      SameTranslations(Trans, trans);
    }

    // ---------- Mapping whole ranges at boot ----------

    /** MmVirtualFillPageTable: from the index of the start address to the end of the table. */
    static method MmVirtualFillPageTable(table: Table, pStart: int, vStart: int, flags: set<Attribute>) returns (filled: Table)
      requires IsWord(vStart)
      ensures forall j :: 0 <= j < TableIndex(vStart) ==> filled[j] == table[j]
      ensures forall j :: TableIndex(vStart) <= j < ENTRIES ==>
        filled[j] == Entry(pStart / PAGE_SIZE + j - TableIndex(vStart), {Present, Write, SystemMap} + flags)
    {
      IndexesOfAddress(vStart);
      hide TableIndex;
      filled := table;
      var i, pAddress, vAddress := TableIndex(vStart), pStart, vStart;
      while i < ENTRIES
        invariant TableIndex(vStart) <= i <= ENTRIES
        invariant pAddress == pStart + (i - TableIndex(vStart)) * PAGE_SIZE
        invariant vAddress == vStart + (i - TableIndex(vStart)) * PAGE_SIZE
        invariant forall j :: 0 <= j < TableIndex(vStart) ==> filled[j] == table[j]
        invariant forall j :: TableIndex(vStart) <= j < i ==>
          filled[j] == Entry(pStart / PAGE_SIZE + j - TableIndex(vStart), {Present, Write, SystemMap} + flags)
      {
        NextPageOf(pStart, i - TableIndex(vStart));
        NextIndex(vStart, i);
        filled := filled[TableIndex(vAddress) := Entry(pAddress / PAGE_SIZE, {Present, Write, SystemMap} + flags)];
        i, pAddress, vAddress := i + 1, pAddress + PAGE_SIZE, vAddress + PAGE_SIZE;
      }
    }

    /** The tables made at boot lie at their own frames, which are marked used. */
    ghost predicate TablesInUsedFrames(frames: FrameMap)
      requires pTables.Length == ENTRIES == vTables.Length
      reads this, pTables, vTables, frames.MemoryBitmap
    {
      forall d :: 0 <= d < ENTRIES && HasTable(d) ==>
        vTables[d] == pTables[d].page * PAGE_SIZE && pTables[d].page > 0 && pTables[d].page in UsedSet(frames.MemoryBitmap[..])
    }

    /** MmVirtualCreatePageTable: a zeroed table in a fresh frame below 16 MB. */
    static method MmVirtualCreatePageTable(frames: FrameMap) returns (address: int, table: Table)
      requires frames.Valid() && |FreeLow(frames.MemoryBitmap[..])| > 0
      modifies frames`MemoryBlocksUsed, frames.MemoryBitmap
      ensures table == ZERO_TABLE
      ensures address % PAGE_SIZE == 0 && address < LOW_MEMORY && address / PAGE_SIZE in FreeLow(old(frames.MemoryBitmap[..]))
      ensures UsedSet(frames.MemoryBitmap[..]) == UsedSet(old(frames.MemoryBitmap[..])) + {address / PAGE_SIZE}
      ensures |FreeLow(frames.MemoryBitmap[..])| == |FreeLow(old(frames.MemoryBitmap[..]))| - 1
    {
      ghost var words := frames.MemoryBitmap[..];
      address := frames.MmPhysicalAllocateBlock(MEMORY_INIT_MASK, 1);
      table := ZERO_TABLE;
      TakeLow(words);
    }

    /** MmVirtualIdentityMapMemoryRange. */
    method MmVirtualIdentityMapMemoryRange(frames: FrameMap, pStart: int, vStart: int, length: int,
                                           fill: bool, flags: set<Attribute>)
      requires Valid() && frames.Valid() && TablesInUsedFrames(frames)
      requires IsWord(vStart) && 0 < length && vStart + length <= WORD_LIMIT
      requires DirIndex(vStart + length - 1) - DirIndex(vStart) < |FreeLow(frames.MemoryBitmap[..])|
      modifies `tables, `Tables, `Serves, `Trans, pTables, vTables, frames`MemoryBlocksUsed, frames.MemoryBitmap
      ensures Valid() && TablesInUsedFrames(frames)
      ensures forall a :: a in Tables ==> a in old(Tables) || a < LOW_MEMORY
      ensures forall d :: 0 <= d < ENTRIES ==>
        if DirIndex(vStart) <= d <= DirIndex(vStart + length - 1) then pTables[d].attrs == {SystemMap, Present, Write} + flags
        else pTables[d] == old(pTables[d])
      ensures forall page :: 0 <= page < PAGES ==>
        EntryAt(Trans, page) == if DirIndex(vStart) <= page / ENTRIES <= DirIndex(vStart + length - 1)
                                then RangeEntry(pStart, vStart, fill, flags, page) else EntryAt(old(Trans), page)
    {
      IndexesOfAddress(vStart + length - 1);
      IndexesOfAddress(vStart);
      var i, k := DirIndex(vStart), 0;
      while i < DirIndex(vStart + length - 1) + 1
        invariant i == DirIndex(vStart) + k && 0 <= k && i <= DirIndex(vStart + length - 1) + 1
        invariant Valid() && frames.Valid() && TablesInUsedFrames(frames)
        invariant DirIndex(vStart + length - 1) - i < |FreeLow(frames.MemoryBitmap[..])|
        invariant forall a :: a in Tables ==> a in old(Tables) || a < LOW_MEMORY
        invariant forall d :: 0 <= d < ENTRIES ==>
          if DirIndex(vStart) <= d < i then pTables[d].attrs == {SystemMap, Present, Write} + flags else pTables[d] == old(pTables[d])
        invariant forall page :: 0 <= page < PAGES ==>
          EntryAt(Trans, page) == if DirIndex(vStart) <= page / ENTRIES < i
                                  then RangeEntry(pStart, vStart, fill, flags, page) else EntryAt(old(Trans), page)
      {
        MapOneTable(frames, pStart, vStart, k, fill, flags);
        i, k := i + 1, k + 1;
      }
    }

    /** One round of the loop: a table for directory entry i. */
    method MapOneTable(frames: FrameMap, pStart: int, vStart: int, k: nat, fill: bool, flags: set<Attribute>)
      requires Valid() && frames.Valid() && TablesInUsedFrames(frames)
      requires IsWord(vStart) && DirIndex(vStart) + k < ENTRIES
      requires |FreeLow(frames.MemoryBitmap[..])| > 0
      modifies `tables, `Tables, `Serves, `Trans, pTables, vTables, frames`MemoryBlocksUsed, frames.MemoryBitmap
      ensures Valid() && TablesInUsedFrames(frames)
      ensures |FreeLow(frames.MemoryBitmap[..])| == |FreeLow(old(frames.MemoryBitmap[..]))| - 1
      ensures forall a :: a in Tables ==> a in old(Tables) || a < LOW_MEMORY
      ensures forall d :: 0 <= d < ENTRIES ==>
        if d == DirIndex(vStart) + k then pTables[d].attrs == {SystemMap, Present, Write} + flags else pTables[d] == old(pTables[d])
      ensures forall page :: 0 <= page < PAGES ==>
        EntryAt(Trans, page) == if page / ENTRIES == DirIndex(vStart) + k
                                then RangeEntry(pStart, vStart, fill, flags, page) else EntryAt(old(Trans), page)
    {
      hide PageDirectory.Valid;
      hide FreeLow;
      hide UsedSet;
      NoFreeIsUsed(frames.MemoryBitmap[..]);
      var i := DirIndex(vStart) + k;
      var address, table := MmVirtualCreatePageTable(frames);
      var pAddress, vAddress := pStart + k * TABLE_SPACE, vStart + k * TABLE_SPACE;
      NextTable(pStart, vStart, k);
      if fill {
        table := MmVirtualFillPageTable(table, pAddress, vAddress, flags);
      }
      InstallTable(i, Entry(address / PAGE_SIZE, {SystemMap, Present, Write} + flags), address, table);
    }
  }

  lemma SameTranslations(a: map<int, Entry>, b: map<int, Entry>)
    requires forall page :: page in a || page in b ==> 0 <= page < PAGES
    requires forall page :: 0 <= page < PAGES ==> EntryAt(a, page) == EntryAt(b, page)
    ensures a == b
  {
    forall page | page in a || page in b ensures page in a && page in b && a[page] == b[page] {
      assert EntryAt(a, page) == EntryAt(b, page);
    }
  }

  /** The translations when the pages of directory entry d go through the table. */
  ghost function Rerouted(trans: map<int, Entry>, d: int, table: Table): (r: map<int, Entry>)
    ensures forall page ::
      EntryAt(r, page) == if page / ENTRIES != d then EntryAt(trans, page) else ThroughTable(table, page % ENTRIES)
    ensures forall page :: page in r ==> page in trans || page / ENTRIES == d
  {
    (map page | page in trans && page / ENTRIES != d :: trans[page]) +
    (map page | d * ENTRIES <= page < (d + 1) * ENTRIES && Present in table[page % ENTRIES].attrs :: table[page % ENTRIES])
  }

  /** What an entry of a table maps. */
  function ThroughTable(entries: seq<Entry>, i: int): Option<Entry> {
    if 0 <= i < |entries| && Present in entries[i].attrs then Some(entries[i]) else None
  }

  // ---------- What the boot mappings cover ----------

  function FreeLow(words: seq<Word>): set<int> {
    set f | BITS <= f < BITS * LOW_WORDS && f < BITS * |words| && !Used(words, f)
  }

  lemma FreeLowIsComplement(words: seq<Word>)
    requires LOW_WORDS < |words|
    ensures forall f :: f in FreeLow(words) <==> BITS <= f < BITS * LOW_WORDS && f !in UsedSet(words)
  {
  }

  lemma NoFreeIsUsed(words: seq<Word>)
    ensures FreeLow(words) !! UsedSet(words) && forall f :: f in FreeLow(words) ==> f > 0
  {
  }

  /** A low request while some low frame is free takes one of them. */
  lemma TakeLow(words: seq<Word>)
    requires LOW_WORDS < |words| && |FreeLow(words)| > 0
    ensures var f := Lowest(words, BITS, BITS * LOW_WORDS, 1);
      && f in FreeLow(words) && FrameAddress(f) == f * PAGE_SIZE
      && UsedSet(MarkRun(words, f, 1, true)) == UsedSet(words) + {f}
      && FreeLow(MarkRun(words, f, 1, true)) == FreeLow(words) - {f}
  {
    var g :| g in FreeLow(words);
    FreeLowIsComplement(words);
    FitsIsFree(words, g);
    var f := Lowest(words, BITS, BITS * LOW_WORDS, 1);
    FitsIsFree(words, f);
    MarkRunUpdatesSet(words, f, 1, true);
    FreeLowIsComplement(MarkRun(words, f, 1, true));
  }

  lemma NextTable(p: int, v: int, k: nat)
    requires IsWord(v) && DirIndex(v) + k < ENTRIES
    ensures IsWord(v + k * TABLE_SPACE)
    ensures TableIndex(v + k * TABLE_SPACE) == TableIndex(v) && DirIndex(v + k * TABLE_SPACE) == DirIndex(v) + k
    ensures (p + k * TABLE_SPACE) / PAGE_SIZE == p / PAGE_SIZE + k * ENTRIES
  {
  }

  /** What a page of an identity-mapped range gets: nothing below the start index of its table. */
  function RangeEntry(pStart: int, vStart: int, fill: bool, flags: set<Attribute>, page: int): Option<Entry> {
    if fill && page % ENTRIES >= TableIndex(vStart) then
      Some(Entry(pStart / PAGE_SIZE + page - PageOf(vStart), {Present, Write, SystemMap} + flags))
    else None
  }

  /**
   A filled range maps every page of [vStart, vStart + length) to its counterpart exactly
   when it starts on a table boundary or stays within one table: each further table is
   filled from the index of the start address, too.
   */
  lemma FilledRangeIsMappedExactly(pStart: int, vStart: int, length: int, flags: set<Attribute>)
    requires IsWord(vStart) && 0 < length && vStart + length <= WORD_LIMIT
    ensures (forall page :: PageOf(vStart) <= page <= PageOf(vStart + length - 1) ==>
               RangeEntry(pStart, vStart, true, flags, page) ==
               Some(Entry(pStart / PAGE_SIZE + page - PageOf(vStart), {Present, Write, SystemMap} + flags)))
       <==> (TableIndex(vStart) == 0 || DirIndex(vStart) == DirIndex(vStart + length - 1))
  {
    IndexesOfAddress(vStart);
    IndexesOfAddress(vStart + length - 1);
    var gap := (DirIndex(vStart) + 1) * ENTRIES;
    assert gap % ENTRIES == 0;
    if DirIndex(vStart) != DirIndex(vStart + length - 1) {
      assert PageOf(vStart) <= gap <= PageOf(vStart + length - 1);
      assert TableIndex(vStart) > 0 ==> RangeEntry(pStart, vStart, true, flags, gap) == None;
    }
  }
}
