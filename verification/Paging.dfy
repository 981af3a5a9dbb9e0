/** Page tables and the identity map of the kernel (arch/i686/mem/paging.c). */
module Paging {
  import opened Wrappers
  import opened Bits
  import opened Alignment
  import opened StaticAlloc
  import opened Frames

  const PAGE_ENTRIES: nat := 1024
  const PAGE_TABLES: nat := 1024
  const TABLE_SPAN: nat := 0x40_0000          // the bytes that one table maps
  const DIRECTORY_SIZE: nat := 8196           // sizeof(struct page_directory)

  class PageDirectory {
    const tables: array<array?<Page>>
    const physicalTables: array<nat>

    ghost predicate Valid()
      reads this, tables
    {
      && tables.Length == physicalTables.Length == PAGE_TABLES
      && (forall t :: 0 <= t < PAGE_TABLES && tables[t] != null ==> tables[t].Length == PAGE_ENTRIES)
      && (forall t, u :: 0 <= t < u < PAGE_TABLES && tables[t] != null ==> tables[t] != tables[u])
    }

    constructor ()
      ensures Valid() && fresh(tables) && fresh(physicalTables)
      ensures forall t :: 0 <= t < PAGE_TABLES ==> tables[t] == null && physicalTables[t] == 0
    {
      tables := new array?<Page>[PAGE_TABLES](_ => null);
      physicalTables := new nat[PAGE_TABLES](_ => 0);
    }

    /** page_get: the table and index of the entry for an address, creating the table if asked.
        Without `create` a missing table gives no entry. */
    method PageGet(addr: nat, create: bool, allocator: StaticAllocator) returns (table: array?<Page>, index: nat)
      requires Valid() && addr < WORD_LIMIT
      requires allocator.Valid() && allocator.heapAddr < WORD_LIMIT
      modifies tables, physicalTables, allocator
      ensures Valid() && allocator.Valid()
      ensures var t := addr / PAGE_SIZE / PAGE_ENTRIES;
              && t < PAGE_TABLES && table == tables[t] && index == addr / PAGE_SIZE % PAGE_ENTRIES
              && (create ==> table != null)
              && (forall u :: 0 <= u < PAGE_TABLES && u != t ==>
                    tables[u] == old(tables[u]) && physicalTables[u] == old(physicalTables[u]))
              && (old(tables[t]) != null || !create ==>
                    && tables[t] == old(tables[t]) && physicalTables[t] == old(physicalTables[t])
                    && allocator.heapAddr == old(allocator.heapAddr))
              && (old(tables[t]) == null && create ==>
                    && fresh(table) && (forall j :: 0 <= j < PAGE_ENTRIES ==> table[j] == ZERO_PAGE)
                    && TableAt(physicalTables[t], old(allocator.heapAddr), allocator.heapAddr))
    {
      var page := addr / PAGE_SIZE;
      var i := page / PAGE_ENTRIES;
      index := page % PAGE_ENTRIES;
      if tables[i] != null {
        return tables[i], index;
      } else if create {
        var _, tmp := allocator.AllocBase(PAGE_SIZE, ALLOC_PAGE_ALIGN);
        table := new Page[PAGE_ENTRIES](_ => ZERO_PAGE);
        tables[i] := table;
        physicalTables[i] := Or(tmp, 0x07);
        AlignedOrFlags(tmp);
        assert Unit(Request(PAGE_SIZE, ALLOC_PAGE_ALIGN)) == PAGE_SIZE;
        return;
      }
      table := null;
    }
  }

  /** A directory entry for a table at an aligned address of its own between two heap addresses,
      at most two pages apart, with the present, writeable and user bits set. */
  predicate TableAt(physical: nat, heapBefore: nat, heapAfter: nat) {
    && physical >= 7 && (physical - 7) % PAGE_SIZE == 0
    && heapBefore <= physical - 7 && physical - 7 + PAGE_SIZE == heapAfter <= heapBefore + 2 * PAGE_SIZE
  }

  lemma AlignedOrFlags(x: nat)
    requires x % PAGE_SIZE == 0
    ensures Or(x, 7) == x + 7
  {
    hide Or;
    assert x % 8 == 0;
    OrStep(x, 7);
    OrStep(x / 2, 3);
    OrStep(x / 2 / 2, 1);
    OrZero(x / 2 / 2 / 2);
  }

  lemma {:induction false} OrStep(x: nat, y: nat)
    ensures Or(x, y) == 2 * Or(x / 2, y / 2) + (if x % 2 == 1 || y % 2 == 1 then 1 else 0)
  {
  }

  lemma {:induction false} OrZero(x: nat)
    ensures Or(x, 0) == x
    decreases x
  {
    if x == 0 {
    } else {
      OrZero(x / 2);
    }
  }

  // ---------- The identity map ----------

  /** The frame that page p gets: frame p, or frame 0 from a bitmap of `limit` frames that has no
      free frame any more. */
  function FrameOf(p: nat, limit: nat): nat {
    if p < limit then p else 0
  }

  /** The entry of page p once the first k pages are mapped. Page 0 is not present, so that null
      pointers fault. */
  function Entry(p: nat, k: nat, limit: nat): Page {
    if 0 < p < k then Page(true, false, false, FrameOf(p, limit)) else ZERO_PAGE
  }

  ghost function Tables(dir: PageDirectory): set<object>
    reads dir.tables
  {
    set t | 0 <= t < dir.tables.Length && dir.tables[t] != null :: dir.tables[t]
  }

  /** There is a table for exactly the first k pages. */
  ghost predicate HasTables(dir: PageDirectory, k: nat)
    requires dir.Valid()
    reads dir, dir.tables
  {
    forall t :: 0 <= t < PAGE_TABLES ==> (dir.tables[t] != null <==> t * PAGE_ENTRIES < k)
  }

  /** The tables map the first k pages and no others. */
  ghost predicate HasEntries(dir: PageDirectory, k: nat, limit: nat)
    requires dir.Valid()
    reads dir, dir.tables, Tables(dir)
  {
    forall t, j :: 0 <= t < PAGE_TABLES && dir.tables[t] != null && 0 <= j < PAGE_ENTRIES ==>
      dir.tables[t][j] == Entry(t * PAGE_ENTRIES + j, k, limit)
  }

  /** Exactly the first k pages are mapped, by exactly the tables that this takes, and exactly
      their frames are marked, as far as the bitmap goes. */
  ghost predicate Mapped(dir: PageDirectory, bitmap: FrameMap, k: nat)
    reads dir, dir.tables, Tables(dir), bitmap, bitmap.frames
  {
    && dir.Valid() && bitmap.Valid() && dir.physicalTables != bitmap.frames
    && HasTables(dir, k) && HasEntries(dir, k, bitmap.Limit())
    && (forall f: nat :: bitmap.Marked(f) <==> f < k && f < bitmap.Limit())
  }

  /** Every table that maps the first k pages lies on a page of its own between two addresses. */
  ghost predicate TablesWithin(dir: PageDirectory, k: nat, low: nat, high: nat)
    reads dir, dir.physicalTables
  {
    && dir.physicalTables.Length == PAGE_TABLES
    && (forall t :: 0 <= t < PAGE_TABLES && t * PAGE_ENTRIES < k ==>
          TablePlace(dir.physicalTables[t], low, high))
    && (forall t, u :: 0 <= t < u < PAGE_TABLES && u * PAGE_ENTRIES < k ==>
          dir.physicalTables[t] + PAGE_SIZE <= dir.physicalTables[u])
  }

  predicate TablePlace(physical: nat, low: nat, high: nat) {
    physical >= 7 && (physical - 7) % PAGE_SIZE == 0 && low <= physical - 7 && physical - 7 + PAGE_SIZE <= high
  }

  /** The number of tables for k pages. */
  function TablesFor(k: nat): nat {
    (k + PAGE_ENTRIES - 1) / PAGE_ENTRIES
  }

  lemma TableOfPage(k: nat)
    ensures k % PAGE_ENTRIES != 0 ==> k / PAGE_ENTRIES * PAGE_ENTRIES < k
  {
  }

  /** One round of the loop: page k gets an entry, if need be in a new table, and frame k; or
      frame 0 when the bitmap is exhausted. */
  method MapPage(dir: PageDirectory, bitmap: FrameMap, allocator: StaticAllocator, i: nat, flags: nat, ghost k: nat, ghost low: nat)
    requires TablesWithin(dir, k, low, allocator.heapAddr) && low <= allocator.heapAddr
    requires Mapped(dir, bitmap, k) && bitmap.Limit() > 0
    requires i == k * PAGE_SIZE < WORD_LIMIT && flags == if k == 0 then 0 else PAGE_FLAGS_PRESENT
    requires allocator.Valid() && allocator.heapAddr < WORD_LIMIT
    modifies dir.tables, dir.physicalTables, Tables(dir), allocator, bitmap.frames
    ensures Mapped(dir, bitmap, k + 1) && allocator.Valid()
    ensures forall t :: 0 <= t < PAGE_TABLES && dir.tables[t] != old(dir.tables[t]) ==> fresh(dir.tables[t])
    ensures TablesWithin(dir, k + 1, low, allocator.heapAddr)
    ensures old(allocator.heapAddr) <= allocator.heapAddr
    ensures allocator.heapAddr <= old(allocator.heapAddr) + if k % PAGE_ENTRIES == 0 then 2 * PAGE_SIZE else 0
  {
    hide TablesWithin, HasTables, HasFlags;
    var table, index := EnsureTable(dir, allocator, i, k, bitmap.Limit(), low);
    ghost var limit := bitmap.Limit();
    assert k < limit ==> !bitmap.Marked(k) && bitmap.HasFree();
    assert table[index] == ZERO_PAGE by { EntryIndex(k, k / PAGE_ENTRIES, k % PAGE_ENTRIES); }
    ghost var f := FrameAlloc(bitmap, table, index, flags);
    assert f == FrameOf(k, limit) && table[index] == Entry(k, k + 1, limit);
    forall t, j | 0 <= t < PAGE_TABLES && dir.tables[t] != null && 0 <= j < PAGE_ENTRIES
      ensures dir.tables[t][j] == Entry(t * PAGE_ENTRIES + j, k + 1, limit)
    {
      EntryIndex(k, t, j);
    }
  }

  lemma EntryIndex(k: nat, t: nat, j: nat)
    requires j < PAGE_ENTRIES
    ensures t * PAGE_ENTRIES + j == k <==> t == k / PAGE_ENTRIES && j == k % PAGE_ENTRIES
  {
  }

  /** The entry of page k, still empty, in a table that may have been made for it. */
  method EnsureTable(dir: PageDirectory, allocator: StaticAllocator, i: nat, ghost k: nat, ghost limit: nat, ghost low: nat)
    returns (table: array<Page>, index: nat)
    requires dir.Valid() && HasTables(dir, k) && HasEntries(dir, k, limit)
    requires i == k * PAGE_SIZE < WORD_LIMIT
    requires allocator.Valid() && low <= allocator.heapAddr < WORD_LIMIT
    requires TablesWithin(dir, k, low, allocator.heapAddr)
    modifies dir.tables, dir.physicalTables, allocator
    ensures dir.Valid() && HasTables(dir, k + 1) && HasEntries(dir, k, limit) && allocator.Valid()
    ensures k < PAGE_TABLES * PAGE_ENTRIES
    ensures table == dir.tables[k / PAGE_ENTRIES] && index == k % PAGE_ENTRIES
    ensures forall t :: 0 <= t < PAGE_TABLES && dir.tables[t] != old(dir.tables[t]) ==> fresh(dir.tables[t])
    ensures TablesWithin(dir, k + 1, low, allocator.heapAddr)
    ensures old(allocator.heapAddr) <= allocator.heapAddr
    ensures allocator.heapAddr <= old(allocator.heapAddr) + if k % PAGE_ENTRIES == 0 then 2 * PAGE_SIZE else 0
  {
    assert i / PAGE_SIZE == k;
    TableOfPage(k);
    table, index := dir.PageGet(i, true, allocator);
  }

  /** Room for the map in the address space: memory mapped by `tables` tables covers the heap
      address together with the page tables themselves, at two pages each. */
  predicate Room(heapAddr: nat, tables: nat) {
    && 0 < tables < PAGE_TABLES
    && heapAddr + tables * 2 * PAGE_SIZE <= tables * TABLE_SPAN
  }

  /** The first loop of paging_init. The bound `heapAddr` moves while the loop runs, because a new
      table comes from the same allocator; the loop ends all the same, and then every page below
      the final heap address is mapped to its own frame, the page tables included, as far as the
      bitmap goes. */
  method IdentityMap(dir: PageDirectory, bitmap: FrameMap, allocator: StaticAllocator, ghost tables: nat)
    returns (ghost k: nat)
    requires Mapped(dir, bitmap, 0) && allocator.Valid()
    requires bitmap.Limit() > 0 && Room(allocator.heapAddr, tables)
    modifies dir.tables, dir.physicalTables, Tables(dir), allocator, bitmap.frames
    ensures allocator.Valid() && allocator.heapAddr <= old(allocator.heapAddr) + tables * 2 * PAGE_SIZE
    ensures k > 0 && (k - 1) * PAGE_SIZE < allocator.heapAddr <= k * PAGE_SIZE
    ensures Mapped(dir, bitmap, k)
    ensures TablesWithin(dir, k, old(allocator.heapAddr), allocator.heapAddr)
  {
    ghost var h0 := allocator.heapAddr;
    MapPage(dir, bitmap, allocator, 0, 0, 0, h0);
    k := 1;
    var i := PAGE_SIZE;
    while i < allocator.heapAddr
      invariant i == k * PAGE_SIZE && 0 < k && (k - 1) * PAGE_SIZE < allocator.heapAddr
      invariant Mapped(dir, bitmap, k) && allocator.Valid()
      invariant forall t :: 0 <= t < PAGE_TABLES && dir.tables[t] != null ==> fresh(dir.tables[t])
      invariant h0 <= allocator.heapAddr <= h0 + TablesFor(k) * 2 * PAGE_SIZE && TablesFor(k) <= tables
      invariant TablesWithin(dir, k, h0, allocator.heapAddr)
      decreases tables * TABLE_SPAN - i
    {
      NextTable(k, tables, allocator.heapAddr, h0);
      MapPage(dir, bitmap, allocator, i, PAGE_FLAGS_PRESENT, k, h0);
      k := k + 1;
      i := i + PAGE_SIZE;
    }
  }

  /** While the bound is not reached, page k is below the memory that `tables` tables map. */
  lemma NextTable(k: nat, tables: nat, heapAddr: nat, h0: nat)
    requires k * PAGE_SIZE < heapAddr <= h0 + TablesFor(k) * 2 * PAGE_SIZE && TablesFor(k) <= tables
    requires h0 + tables * 2 * PAGE_SIZE <= tables * TABLE_SPAN && tables < PAGE_TABLES
    ensures k * PAGE_SIZE < tables * TABLE_SPAN < WORD_LIMIT && heapAddr < WORD_LIMIT
    ensures k < tables * PAGE_ENTRIES && TablesFor(k + 1) <= tables
    ensures TablesFor(k + 1) == TablesFor(k) + if k % PAGE_ENTRIES == 0 then 1 else 0
  {
  }

  /** Translation of an address by the tables: no entry or an entry that is not present faults. */
  ghost function Translate(dir: PageDirectory, addr: nat): Option<nat>
    requires dir.Valid() && addr < WORD_LIMIT
    reads dir, dir.tables, Tables(dir)
  {
    var t, j := addr / PAGE_SIZE / PAGE_ENTRIES, addr / PAGE_SIZE % PAGE_ENTRIES;
    if dir.tables[t] == null || !dir.tables[t][j].present then None
    else Some(dir.tables[t][j].frame * PAGE_SIZE + addr % PAGE_SIZE)
  }

  /** Where an address leads when its page has the frame it gets. */
  function Target(addr: nat, limit: nat): nat {
    FrameOf(addr / PAGE_SIZE, limit) * PAGE_SIZE + addr % PAGE_SIZE
  }

  /** The map leads every address from the second page up to its end to the frame of its page, and
      faults everywhere else. */
  lemma TranslatesByFrame(dir: PageDirectory, bitmap: FrameMap, k: nat, addr: nat)
    requires Mapped(dir, bitmap, k) && addr < WORD_LIMIT
    ensures Translate(dir, addr) ==
              if PAGE_SIZE <= addr < k * PAGE_SIZE
              then Some(Target(addr, bitmap.Limit())) else None
  {
    var p := addr / PAGE_SIZE;
    var t, j := p / PAGE_ENTRIES, p % PAGE_ENTRIES;
    assert t * PAGE_ENTRIES + j == p;
    if dir.tables[t] != null {
      assert dir.tables[t][j] == Entry(p, k, bitmap.Limit());
    }
  }

  /** The map is the identity from the second page up to its end. */
  ghost predicate IsIdentity(dir: PageDirectory, k: nat)
    requires dir.Valid()
    reads dir, dir.tables, Tables(dir)
  {
    forall addr :: PAGE_SIZE <= addr < k * PAGE_SIZE && addr < WORD_LIMIT ==> Translate(dir, addr) == Some(addr)
  }

  /** That is so exactly if the last page of the map is a frame of the bitmap. The first page that is
      not leads to frame 0. */
  lemma IdentityNeedsFrames(dir: PageDirectory, bitmap: FrameMap, k: nat)
    requires Mapped(dir, bitmap, k) && bitmap.Limit() > 0 && k * PAGE_SIZE <= WORD_LIMIT
    ensures IsIdentity(dir, k) <==> k <= bitmap.Limit()
    ensures k > bitmap.Limit() ==> Translate(dir, bitmap.Limit() * PAGE_SIZE) == Some(0)
  {
    assert dir.Valid();
    hide Mapped, Translate, Tables, Target;
    var limit := bitmap.Limit();
    if k <= limit {
      forall addr | PAGE_SIZE <= addr < k * PAGE_SIZE && addr < WORD_LIMIT
        ensures Translate(dir, addr) == Some(addr)
      {
        TranslatesByFrame(dir, bitmap, k, addr);
        AddressOfFrame(addr, k, limit);
      }
    } else {
      TranslatesByFrame(dir, bitmap, k, limit * PAGE_SIZE);
      FirstWithoutFrame(limit);
    }
  }

  lemma AddressOfFrame(addr: nat, k: nat, limit: nat)
    requires addr < k * PAGE_SIZE && k <= limit
    ensures Target(addr, limit) == addr
  {
  }

  lemma FirstWithoutFrame(limit: nat)
    ensures Target(limit * PAGE_SIZE, limit) == 0
  {
    assert limit * PAGE_SIZE / PAGE_SIZE == limit;
  }

  /** The page tables made on the way are mapped too, each to itself exactly if its page is a frame
      of the bitmap. */
  lemma TablesAreMapped(dir: PageDirectory, bitmap: FrameMap, k: nat, low: nat, high: nat, t: nat)
    requires Mapped(dir, bitmap, k) && TablesWithin(dir, k, low, high)
    requires PAGE_SIZE <= low && high <= k * PAGE_SIZE && high < WORD_LIMIT
    requires t < PAGE_TABLES && t * PAGE_ENTRIES < k
    ensures var table := dir.physicalTables[t] - 7;
            && Translate(dir, table).Some?
            && (Translate(dir, table) == Some(table) <==> table < bitmap.Limit() * PAGE_SIZE)
  {
    assert TablePlace(dir.physicalTables[t], low, high);
    TranslatesByFrame(dir, bitmap, k, dir.physicalTables[t] - 7);
  }

  lemma NothingMapped(dir: PageDirectory, bitmap: FrameMap)
    requires dir.Valid() && bitmap.Valid() && dir.physicalTables != bitmap.frames
    requires forall t :: 0 <= t < PAGE_TABLES ==> dir.tables[t] == null
    requires forall f: nat :: !bitmap.Marked(f)
    ensures Mapped(dir, bitmap, 0) && Tables(dir) == {}
  {
  }

  lemma FrameCounts(memSize: nat)
    ensures memSize * 1024 / 0x1000 == memSize / 4 && BitIndex(memSize / 4) == memSize / 128
  {
  }

  lemma MarkedFrames(dir: PageDirectory, bitmap: FrameMap, k: nat, heapAddr: nat)
    requires Mapped(dir, bitmap, k) && k > 0 && (k - 1) * PAGE_SIZE < heapAddr <= k * PAGE_SIZE
    ensures forall f: nat :: bitmap.Marked(f) <==> f * PAGE_SIZE < heapAddr && f < bitmap.Limit()
    ensures k <= bitmap.Limit() <==> heapAddr <= bitmap.Limit() * PAGE_SIZE
  {
  }

  lemma RoomLower(h: nat, top: nat, tables: nat)
    requires Room(top, tables) && h <= top
    ensures Room(h, tables) && top < WORD_LIMIT
  {
  }

  lemma MapEnd(heapAddr: nat, k: nat, h: nat, tables: nat)
    requires (k - 1) * PAGE_SIZE < heapAddr <= h + tables * 2 * PAGE_SIZE && Room(h, tables)
    ensures k * PAGE_SIZE <= WORD_LIMIT
  {
  }

  /** paging_init up to the end of its first loop, for every memory of at least one word of frames. The
      bitmap, the directory and the page tables follow each other in memory.
      The map is the identity exactly if the bitmap reaches the final heap address. */
  method PagingInit(memSize: nat, allocator: StaticAllocator, ghost tables: nat)
    returns (dir: PageDirectory, bitmap: FrameMap, bitmapAddr: nat, directoryAddr: nat, ghost k: nat)
    requires memSize < WORD_LIMIT && memSize / 4 >= 32
    requires allocator.Valid()
    requires Room(allocator.heapAddr + memSize / 128 + DIRECTORY_SIZE + 32, tables)
    modifies allocator
    ensures allocator.Valid() && dir.Valid() && bitmap.Valid() && bitmap.framesCount == memSize / 4
    ensures k > 0 && (k - 1) * PAGE_SIZE < allocator.heapAddr <= k * PAGE_SIZE
    ensures Mapped(dir, bitmap, k)
    ensures bitmap.Limit() == 32 * (memSize / 128)
    ensures forall f: nat :: bitmap.Marked(f) <==> f * PAGE_SIZE < allocator.heapAddr && f < bitmap.Limit()
    ensures IsIdentity(dir, k) <==> allocator.heapAddr <= bitmap.Limit() * PAGE_SIZE
    ensures PlacedFor(bitmapAddr, old(allocator.heapAddr), StaticAlloc.Request(memSize / 128, 0))
    ensures PlacedFor(directoryAddr, bitmapAddr + memSize / 128, StaticAlloc.Request(8196, 0))
    ensures TablesWithin(dir, k, directoryAddr + 8196, allocator.heapAddr)
  {
    hide Place, PlacedFor, Mapped, Room, TablesWithin, BitIndex, Translate, IsIdentity;
    ghost var top := allocator.heapAddr + memSize / 128 + DIRECTORY_SIZE + 32;
    RoomLower(top, top, tables);
    dir, bitmap, bitmapAddr, directoryAddr := NewDirectory(memSize, allocator, top);
    ghost var low := allocator.heapAddr;
    RoomLower(low, top, tables);
    k := IdentityMap(dir, bitmap, allocator, tables);
    MarkedFrames(dir, bitmap, k, allocator.heapAddr);
    MapEnd(allocator.heapAddr, k, low, tables);
    IdentityNeedsFrames(dir, bitmap, k);
  }

  /** The bitmap and the directory, both empty. */
  method NewDirectory(memSize: nat, allocator: StaticAllocator, ghost top: nat)
    returns (dir: PageDirectory, bitmap: FrameMap, bitmapAddr: nat, directoryAddr: nat)
    requires memSize < WORD_LIMIT && memSize / 4 >= 32 && allocator.Valid()
    requires top == allocator.heapAddr + memSize / 128 + DIRECTORY_SIZE + 32 && top < WORD_LIMIT
    modifies allocator
    ensures allocator.Valid() && allocator.heapAddr == directoryAddr + 8196 <= top
    ensures fresh(dir) && fresh(dir.tables) && fresh(dir.physicalTables) && fresh(bitmap) && fresh(bitmap.frames)
    ensures Mapped(dir, bitmap, 0) && Tables(dir) == {}
    ensures bitmap.framesCount == memSize / 4 && bitmap.Limit() == 32 * (memSize / 128)
    ensures PlacedFor(bitmapAddr, old(allocator.heapAddr), StaticAlloc.Request(memSize / 128, 0))
    ensures PlacedFor(directoryAddr, bitmapAddr + memSize / 128, StaticAlloc.Request(8196, 0))
  {
    hide Place, PlacedFor, Mapped, BitIndex;
    FrameCounts(memSize);
    var memEnd := memSize * 1024;
    var framesCount := memEnd / 0x1000;
    var phys: nat;
    bitmapAddr, phys := allocator.AllocBase(BitIndex(framesCount), ALLOC_SIZE_ALIGN);
    bitmap := new FrameMap(framesCount);
    directoryAddr, phys := allocator.AllocBase(DIRECTORY_SIZE, ALLOC_SIZE_ALIGN);
    dir := new PageDirectory();
    NothingMapped(dir, bitmap);
  }

  // ---------- The bitmap as it is allocated ----------

  /** The end, in bytes from the start of the bitmap, of the word that holds a frame's bit. */
  function WordEnd(f: nat): nat {
    4 * BitIndex(f) + 4
  }

  /** As written, the bitmap is given one byte for every word. The words that the map of k pages marks
      lie inside it exactly if all of them take no more bytes than there are words in the bitmap. */
  lemma BitmapAsWritten(framesCount: nat, k: nat)
    requires k > 0
    ensures (forall f: nat :: f < k ==> WordEnd(f) <= BitIndex(framesCount)) <==> WordEnd(k - 1) <= BitIndex(framesCount)
  {
    forall f: nat | f < k
      ensures WordEnd(f) <= WordEnd(k - 1)
    {
      EarlierWord(f, k - 1);
    }
  }

  lemma EarlierWord(f: nat, g: nat)
    requires f <= g
    ensures WordEnd(f) <= WordEnd(g)
  {
  }

  /** Behind it, at most 16 bytes on, stands the page directory, which is allocated next: the words
      reach into it exactly if the last of them does. */
  lemma BitmapMeetsDirectory(bitmapAddr: nat, framesCount: nat, k: nat)
    requires k > 0 && 16 <= bitmapAddr && bitmapAddr + BitIndex(framesCount) < WORD_LIMIT
    ensures var end := bitmapAddr + BitIndex(framesCount);
            var directory := Place(end, StaticAlloc.Request(DIRECTORY_SIZE, ALLOC_SIZE_ALIGN));
            && end <= directory <= end + 16
            && ((exists f: nat :: f < k && bitmapAddr + WordEnd(f) > directory) <==> bitmapAddr + WordEnd(k - 1) > directory)
  {
    DirectoryPlace(bitmapAddr + BitIndex(framesCount));
    forall f: nat | f < k
      ensures WordEnd(f) <= WordEnd(k - 1)
    {
      EarlierWord(f, k - 1);
    }
  }

  lemma DirectoryPlace(h: nat)
    requires 16 <= h < WORD_LIMIT
    ensures h <= Place(h, StaticAlloc.Request(DIRECTORY_SIZE, ALLOC_SIZE_ALIGN)) <= h + 16
  {
    assert !TestFlag(ALLOC_SIZE_ALIGN, ALLOC_PAGE_ALIGN);
    hide MakeAllocAligned;
    MakeAllocAlignedMoves(h, DIRECTORY_SIZE);
  }

  /** For example, with 128 MiB of memory the bitmap is given 1024 bytes, and a map of more than
      32 MiB marks words behind it. */
  lemma BitmapTooSmall()
    ensures BitIndex(0x8000) == 1024 && WordEnd(0x1FFF) == 1024 && WordEnd(0x2000) == 1028
  {
  }
}
