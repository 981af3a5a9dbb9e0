/** Choosing memory for the kernel heap (arch/i686/mem/heap.c:105-142). */
module HeapRegion {
  import opened Wrappers
  import opened Alignment

  datatype Kind = Available | Reclaimable | Other

  /** An entry of the memory map, with 64-bit bounds. */
  datatype Region = Region(start: nat, end: nat, kind: Kind)

  predicate WellFormed(map_: seq<Region>) {
    forall i :: 0 <= i < |map_| ==> map_[i].start <= map_[i].end
  }

  function Low32(x: nat): nat {
    x % WORD_LIMIT
  }

  lemma Low32Small(x: nat)
    requires x < WORD_LIMIT
    ensures Low32(x) == x
  {
  }

  /** Where the heap would start in a region, as a 32-bit address. */
  function HeapAddress(r: Region, heapAddr: nat): nat {
    Low32(MakeAligned(if r.start < heapAddr <= r.end then heapAddr else Low32(r.start), PAGE_SIZE))
  }

  predicate Suits(r: Region, heapAddr: nat, size: nat) {
    r.kind.Available? && r.start + size <= r.end && HeapAddress(r, heapAddr) + size <= r.end
  }

  /** The first region that suits, or the number of regions. */
  function FirstSuiting(map_: seq<Region>, heapAddr: nat, size: nat): (i: nat)
    ensures i <= |map_| && (i < |map_| ==> Suits(map_[i], heapAddr, size))
    ensures forall k :: 0 <= k < i ==> !Suits(map_[k], heapAddr, size)
  {
    if map_ == [] || Suits(map_[0], heapAddr, size) then 0 else 1 + FirstSuiting(map_[1..], heapAddr, size)
  }

  /** There is no room for the heap in a region, from its start or from where the heap would start. */
  predicate TooSmall(r: Region, heapAddr: nat, size: nat) {
    r.end < r.start + size || r.end < HeapAddress(r, heapAddr) + size
  }

  /** Region i is free memory with room, and there is none before it. */
  predicate Chosen(map_: seq<Region>, i: nat, heapAddr: nat, size: nat)
    requires i < |map_|
  {
    && map_[i].kind.Available? && !TooSmall(map_[i], heapAddr, size)
    && forall k :: 0 <= k < i && map_[k].kind.Available? ==> TooSmall(map_[k], heapAddr, size)
  }

  lemma FirstIsChosen(map_: seq<Region>, heapAddr: nat, size: nat)
    ensures var i := FirstSuiting(map_, heapAddr, size);
            if i < |map_| then Chosen(map_, i, heapAddr, size)
            else forall r :: r in map_ && r.kind.Available? ==> TooSmall(r, heapAddr, size)
  {
    hide HeapAddress;
    var i := FirstSuiting(map_, heapAddr, size);
    forall k | 0 <= k < i && map_[k].kind.Available?
      ensures TooSmall(map_[k], heapAddr, size)
    {
      assert !Suits(map_[k], heapAddr, size);
    }
  }

  datatype Choice = Choice(address: nat, heapAddr: nat)

  /** The search over the memory map; without a region the kernel panics. */
  method GetHeapRegion(map_: seq<Region>, heapAddr: nat, size: nat) returns (choice: Option<Choice>)
    requires WellFormed(map_) && size > 0 && heapAddr < WORD_LIMIT
    ensures var i := FirstSuiting(map_, heapAddr, size);
            if i == |map_| then choice == None
            else var a := HeapAddress(map_[i], heapAddr); choice == Some(Choice(a, Low32(a + size)))
    ensures choice.None? ==> forall r :: r in map_ && r.kind.Available? ==> TooSmall(r, heapAddr, size)
    ensures choice.Some? ==>
              exists i :: 0 <= i < |map_| && Chosen(map_, i, heapAddr, size) && choice.value.address == HeapAddress(map_[i], heapAddr)
  {
    hide MakeAligned, Low32, TooSmall, Chosen;
    FirstIsChosen(map_, heapAddr, size);
    var i := 0;
    while i < |map_|
      invariant i <= |map_| && FirstSuiting(map_, heapAddr, size) == i + FirstSuiting(map_[i..], heapAddr, size)
    {
      var region := map_[i];
      assert map_[i..][1..] == map_[i + 1..];
      if region.end - region.start >= size && region.kind.Available? {
        var address := Low32(region.start);
        if region.start < heapAddr && heapAddr <= region.end {
          address := heapAddr;
        }
        address := Low32(MakeAligned(address, PAGE_SIZE));
        if address + size <= region.end {
          return Some(Choice(address, Low32(address + size)));
        }
      }
      i := i + 1;
    }
    return None;
  }

  /** Where the heap is looked for in a region, before alignment and truncation. */
  function From(r: Region, heapAddr: nat): nat {
    if r.start < heapAddr <= r.end then heapAddr else r.start
  }

  /** In which regions the address found is where it should be. It is not below the region exactly if
      the search starts below the last page of 4 GiB, or the region starts at zero: beyond, the address
      is cut to 32 bits. It is aligned exactly if what is cut to 32 bits is zero or at least a page. */
  lemma HeapLiesInRegion(r: Region, heapAddr: nat, size: nat)
    requires Suits(r, heapAddr, size) && size > 0 && heapAddr < WORD_LIMIT
    ensures var a, from := HeapAddress(r, heapAddr), From(r, heapAddr);
            && a + size <= r.end
            && (r.start <= a <==> from < WORD_LIMIT - PAGE_SIZE || r.start == 0)
            && (a % PAGE_SIZE == 0 <==> Low32(from) >= PAGE_SIZE || Low32(from) == 0)
  {
    var from := From(r, heapAddr);
    CutAndAligned(from);
    Low32Cuts(from);
    if from == heapAddr {
      Low32Small(heapAddr);
    }
  }

  /** In which regions the heap lies both inside the region and above everything the kernel has
      allocated so far: exactly those that do not end below it, short of the last page of 4 GiB. The
      code never compares the two in a region that lies lower as a whole. */
  lemma HeapAboveKernel(r: Region, heapAddr: nat, size: nat)
    requires Suits(r, heapAddr, size) && size > 0 && heapAddr < WORD_LIMIT
    ensures var a := HeapAddress(r, heapAddr);
            r.start <= a && heapAddr <= a <==> From(r, heapAddr) < WORD_LIMIT - PAGE_SIZE && heapAddr <= r.end
  {
    HeapLiesInRegion(r, heapAddr, size);
    CutAndAligned(From(r, heapAddr));
    if From(r, heapAddr) < WORD_LIMIT {
      Low32Small(From(r, heapAddr));
    }
  }

  lemma Low32Cuts(x: nat)
    ensures Low32(x) < WORD_LIMIT && Low32(x) <= x
  {
  }

  /** The address that alignment makes of one cut to 32 bits, cut again. */
  lemma CutAndAligned(x: nat)
    ensures var y := Low32(x); var a := Low32(MakeAligned(y, PAGE_SIZE));
            && a == (if y < PAGE_SIZE then y else if y >= WORD_LIMIT - PAGE_SIZE then 0 else y - y % PAGE_SIZE + PAGE_SIZE)
            && (y >= PAGE_SIZE ==> a % PAGE_SIZE == 0)
            && (PAGE_SIZE <= y < WORD_LIMIT - PAGE_SIZE ==> a > y)
            && a < WORD_LIMIT
  {
    var y := Low32(x);
    Low32Cuts(x);
    UnitsArePowers();
    MakeAlignedMoves(y, PAGE_SIZE);
    hide MakeAligned, PowerOfTwo;
    LastPage(y);
  }

  lemma LastPage(y: nat)
    requires y < WORD_LIMIT
    ensures y >= WORD_LIMIT - PAGE_SIZE ==> y - y % PAGE_SIZE + PAGE_SIZE == WORD_LIMIT
    ensures y < WORD_LIMIT - PAGE_SIZE ==> y - y % PAGE_SIZE + PAGE_SIZE < WORD_LIMIT
    ensures Low32(WORD_LIMIT) == 0
    ensures forall z: nat :: z < WORD_LIMIT ==> Low32(z) == z
  {
  }

  const INITIAL_HEAP_SIZE: nat := 0x10_0000

  /** For example, in a free region from 1 MiB to 15 MiB below static allocations that have reached
      17 MiB, the heap is put one page above its start, where a kernel loaded at 1 MiB stands. */
  lemma LowerRegionMovesBack()
    ensures var low := Region(0x10_0000, 0xF0_0000, Available);
            && Suits(low, 0x110_0000, INITIAL_HEAP_SIZE)
            && HeapAddress(low, 0x110_0000) == 0x10_1000
            && HeapAddress(low, 0x110_0000) + INITIAL_HEAP_SIZE < 0x110_0000
  {
    hide MakeAligned;
    Low32Small(0x10_0000);
    CutAndAligned(0x10_0000);
  }
}
