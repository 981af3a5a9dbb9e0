/** The heap: boundary tags in memory and a size-ordered index of holes (arch/i686/mem/heap.c). */
module Heap {
  import opened Wrappers
  import opened Bits
  import opened Alignment
  import opened SortedArrays
  import opened HeapModel
  import opened HeapProperties
  import opened HeapLedger
  import opened HeapTags

  class Heap {
    const blocklist: SortedArray<nat>
    const start: nat
    const end: nat
    var mem: Memory
    var allocCount: nat
    var freeCount: nat
    var bytesAllocd: nat
    ghost var blocks: seq<Block>

    ghost predicate Laid()
      reads this
    {
      && PAGE_SIZE <= start <= end < WORD_LIMIT && end - start < 0x8000_0000
      && LaidAt(mem, blocks, start, end)
    }

    ghost predicate Valid()
      reads this, blocklist, blocklist.elements
    {
      && blocklist.Valid() && Laid()
      && NoAdjacentHoles(blocks)
      && Indexes(blocklist.Contents(), Holes(blocks), mem)
      && bytesAllocd == LivePayload(blocks)
      && allocCount == freeCount + |Live(blocks)|
    }

    /** What heap_free asserts at its end: no more blocks were freed than allocated, and no more bytes
        are allocated than the heap has. */
    lemma CountsHold()
      requires Valid()
      ensures freeCount <= allocCount && bytesAllocd <= end - start
    {
      Accounting(blocks);
    }

    /** The index has room for the holes that an allocation leaves of the hole it takes. */
    ghost predicate RoomToAlloc(size: nat, pageAlign: bool)
      requires Valid()
      reads this, blocklist, blocklist.elements
    {
      var list := blocklist.Contents();
      var j := FirstFit(list, mem, TotalBlockSize(size), pageAlign);
      j < |list| ==>
        |list| - 1 + HolesLeft(SizeAt(mem, list[j]), Gap(list[j], pageAlign), size) <= blocklist.capacity
    }

    /** A full index has room whenever no alignment is asked. */
    lemma RoomWithoutAlignment(size: nat, pageAlign: bool)
      requires Valid() && (blocklist.count < blocklist.capacity || !pageAlign)
      ensures RoomToAlloc(size, pageAlign)
    {
    }

    /** The index has room for the hole that freeing leaves: it is not full, or a neighbour is a hole. */
    ghost predicate RoomToFree(i: nat)
      requires blocklist.Valid() && i < |blocks|
      reads this, blocklist, blocklist.elements
    {
      blocklist.count < blocklist.capacity || FirstMerged(blocks, i) < i || i < LastMerged(blocks, i)
    }

    /** create_heap: one hole from start to end, tagged at both ends. */
    constructor (start: nat, end: nat, capacity: nat, memory: Memory)
      requires PAGE_SIZE <= start && start + MINIMUM_BLOCK_SIZE <= end < WORD_LIMIT && end - start < 0x8000_0000
      requires start - FOOTER_SIZE !in memory && end !in memory
      requires capacity > 0
      ensures Valid() && fresh(blocklist) && fresh(blocklist.elements) && blocklist.capacity == capacity
      ensures blocks == [Block(start, end - start - MINIMUM_BLOCK_SIZE, true)]
      ensures allocCount == freeCount == bytesAllocd == 0
    {
      var hole := Block(start, end - start - MINIMUM_BLOCK_SIZE, true);
      this.start, this.end := start, end;
      mem := PlaceTags(memory, hole);
      allocCount, freeCount, bytesAllocd := 0, 0, 0;
      blocks := [hole];
      blocklist := new SortedArray<nat>(capacity);
      new;
      var _ := blocklist.Add(start, BySize(mem));
      OneBlock(hole);
    }

    /** The index of the first listed hole that is big enough, or -1. */
    method GetSmallestHole(size: nat, aligned: bool) returns (index: int)
      requires Valid()
      ensures index == var j := FirstFit(blocklist.Contents(), mem, size, aligned);
                       if j < |blocklist.Contents()| then j else -1
      ensures -1 <= index < |blocklist.Contents()|
      ensures index >= 0 ==> var x := blocklist.Contents()[index]; Room(x, SizeAt(mem, x), size, aligned)
      ensures forall k :: 0 <= k < (if index < 0 then |blocklist.Contents()| else index) ==>
                !Room(blocklist.Contents()[k], SizeAt(mem, blocklist.Contents()[k]), size, aligned)
    {
      hide Room, BigEnough, LaidAt, Holes, Indexes;
      var j := blocklist.Count();
      var i := 0;
      while i < j
        invariant 0 <= i <= j
        invariant forall k :: 0 <= k < i ==>
                    !Room(blocklist.Contents()[k], SizeAt(mem, blocklist.Contents()[k]), size, aligned)
      {
        var header := blocklist.Get(i);
        ListedInHeap(blocklist.Contents(), mem, blocks, start, end, i);
        BigEnoughIsRoom(header, SizeAt(mem, header), size, aligned);
        if BigEnough(header, SizeAt(mem, header), size, aligned) {
          FirstFitIs(blocklist.Contents(), mem, size, aligned, i);
          return i;
        }
        i := i + 1;
      }
      FirstFitIs(blocklist.Contents(), mem, size, aligned, i);
      index := -1;
    }

    /** create_hole: tags the hole and lists it. */
    method CreateHole(addr: nat, size: nat)
      requires blocklist.Valid() && blocklist.count < blocklist.capacity
      requires Sorted(blocklist.Contents(), BySize(mem))
      requires Clear(blocklist.Contents(), addr, addr + TotalBlockSize(size))
      modifies this`mem, blocklist`count, blocklist.elements
      ensures blocklist.Valid() && blocklist.count == old(blocklist.count) + 1
      ensures mem == PlaceTags(old(mem), Block(addr, size, true))
      ensures multiset(blocklist.Contents()) == multiset(old(blocklist.Contents())) + multiset{addr}
      ensures forall x :: x in blocklist.Contents() ==> x in old(blocklist.Contents()) || x == addr
      ensures Sorted(blocklist.Contents(), BySize(mem))
    {
      hide Sorted, PlaceTags, LowerBound;
      ghost var list := blocklist.Contents();
      SortedAfterPlacing(list, mem, Block(addr, size, true));
      mem := PlaceTags(mem, Block(addr, size, true));
      BySizeIsOrder(mem);
      InsertKeepsSorted(list, addr, BySize(mem));
      var _ := blocklist.Add(addr, BySize(mem));
    }

    /** place_header and place_footer for an allocated block. */
    method PlaceBlock(addr: nat, size: nat)
      requires blocklist.Valid() && Sorted(blocklist.Contents(), BySize(mem))
      requires Clear(blocklist.Contents(), addr, addr + TotalBlockSize(size))
      modifies this`mem
      ensures mem == PlaceTags(old(mem), Block(addr, size, false))
      ensures Sorted(blocklist.Contents(), BySize(mem))
    {
      SortedAfterPlacing(blocklist.Contents(), mem, Block(addr, size, false));
      mem := PlaceTags(mem, Block(addr, size, false));
    }

    /** Takes a hole out of the index. */
    method TakeHole(index: nat, ghost i: nat)
      requires Valid() && index < blocklist.count && i < |blocks|
      requires blocks[i].free && blocks[i].addr == blocklist.Contents()[index]
      modifies blocklist`count, blocklist.elements
      ensures blocklist.Valid() && blocklist.count == old(blocklist.count) - 1
      ensures Indexes(blocklist.Contents(), Holes(blocks[..i]) + Holes(blocks[i + 1..]), mem)
      ensures Clear(blocklist.Contents(), blocks[i].addr, BlockEnd(blocks[i]))
    {
      hide Tiled, Extent, Holes, Tagged, NoAdjacentHoles, Indexes, Sorted;
      HolesAround(blocks, i);
      TakeFromIndex(blocklist.Contents(), index, Holes(blocks[..i]), blocks[i].addr, Holes(blocks[i + 1..]), mem);
      blocklist.Remove(index);
      Around(blocks, i);
      BlockPosition(blocks, start, i);
      OneBlock(blocks[i]);
      IndexedOutside(blocklist.Contents(), blocks[..i], [blocks[i]], blocks[i + 1..], start, mem);
    }

    /** Lays the tags of the pieces of an unlisted hole, listing the ones that are holes. */
    method CarveHole(addr: nat, size: nat, gap: nat, allocSize: nat)
      requires blocklist.Valid() && blocklist.count + HolesLeft(size, gap, allocSize) <= blocklist.capacity
      requires Fits(Block(addr, size, true), gap, allocSize)
      requires Sorted(blocklist.Contents(), BySize(mem))
      requires Clear(blocklist.Contents(), addr, addr + TotalBlockSize(size))
      modifies this`mem, blocklist`count, blocklist.elements
      ensures blocklist.Valid()
      ensures mem == PlaceAll(old(mem), Carve(Block(addr, size, true), gap, allocSize))
      ensures multiset(blocklist.Contents())
           == multiset(old(blocklist.Contents())) + multiset(Holes(Carve(Block(addr, size, true), gap, allocSize)))
      ensures Sorted(blocklist.Contents(), BySize(mem))
    {
      hide PlaceTags, PlaceAll, Holes, Sorted, Carve, Front, Middle, Back;
      ghost var b := Block(addr, size, true);
      CarveParts(mem, b, gap, allocSize);
      FrontHole(addr, size, gap);
      BlockAndBack(addr, size, gap, allocSize);
    }

    /** The block itself and, if enough is left, the hole behind it. */
    method BlockAndBack(addr: nat, size: nat, gap: nat, allocSize: nat)
      requires blocklist.Valid()
      requires size >= gap + allocSize && (size - gap - allocSize > MINIMUM_BLOCK_SIZE ==> blocklist.count < blocklist.capacity)
      requires Sorted(blocklist.Contents(), BySize(mem))
      requires Clear(blocklist.Contents(), addr + gap, addr + TotalBlockSize(size))
      modifies this`mem, blocklist`count, blocklist.elements
      ensures blocklist.Valid()
      ensures var b := Block(addr, size, true);
              mem == PlaceAll(PlaceTags(old(mem), Middle(b, gap, allocSize)), Back(b, gap, allocSize))
      ensures multiset(blocklist.Contents())
           == multiset(old(blocklist.Contents())) + multiset(Holes(Back(Block(addr, size, true), gap, allocSize)))
      ensures Sorted(blocklist.Contents(), BySize(mem))
    {
      hide PlaceTags, PlaceAll, Holes, Sorted;
      var header := addr + gap;
      var rest := size - gap - allocSize;
      var payload := if rest <= MINIMUM_BLOCK_SIZE then allocSize + rest else allocSize;
      PlaceBlock(header, payload);
      ghost var back := Back(Block(addr, size, true), gap, allocSize);
      OnePlaced(mem, back);
      if rest > MINIMUM_BLOCK_SIZE {
        CreateHole(header + TotalBlockSize(payload), rest - MINIMUM_BLOCK_SIZE);
      }
    }

    /** The hole in front of a page-aligned block. */
    method FrontHole(addr: nat, size: nat, gap: nat)
      requires blocklist.Valid() && (gap > 0 ==> blocklist.count < blocklist.capacity)
      requires gap <= size && (gap == 0 || gap > MINIMUM_BLOCK_SIZE)
      requires Sorted(blocklist.Contents(), BySize(mem))
      requires Clear(blocklist.Contents(), addr, addr + TotalBlockSize(size))
      modifies this`mem, blocklist`count, blocklist.elements
      ensures blocklist.Valid() && blocklist.count == old(blocklist.count) + if gap > 0 then 1 else 0
      ensures mem == PlaceAll(old(mem), Front(Block(addr, size, true), gap))
      ensures multiset(blocklist.Contents())
           == multiset(old(blocklist.Contents())) + multiset(Holes(Front(Block(addr, size, true), gap)))
      ensures Sorted(blocklist.Contents(), BySize(mem))
      ensures Clear(blocklist.Contents(), addr + gap, addr + TotalBlockSize(size))
    {
      hide PlaceTags, PlaceAll, Holes, Sorted;
      OnePlaced(mem, Front(Block(addr, size, true), gap));
      if gap > 0 {
        CreateHole(addr, gap - MINIMUM_BLOCK_SIZE);
      }
    }

    /** Takes a listed hole out of the index and carves it. */
    method CarveListed(index: nat, addr: nat, size: nat, gap: nat, allocSize: nat, ghost i: nat)
      requires Valid() && index < blocklist.count && i < |blocks|
      requires blocks[i] == Block(addr, size, true) && addr == blocklist.Contents()[index]
      requires Fits(blocks[i], gap, allocSize)
      requires blocklist.count - 1 + HolesLeft(size, gap, allocSize) <= blocklist.capacity
      modifies this`mem, blocklist`count, blocklist.elements
      ensures blocklist.Valid() && mem == PlaceAll(old(mem), Carve(blocks[i], gap, allocSize))
      ensures Indexes(blocklist.Contents(),
                      Holes(blocks[..i]) + Holes(Carve(blocks[i], gap, allocSize)) + Holes(blocks[i + 1..]), mem)
    {
      hide LaidAt, NoAdjacentHoles, LivePayload, Live, Carve, PlaceAll, Holes, Sorted, HolesLeft;
      TakeHole(index, i);
      CarveHole(addr, size, gap, allocSize);
    }

    /** alloc_with_hole: carves the allocation out of listed hole `index`, which is block i. */
    method AllocWithHole(index: nat, allocSize: nat, pageAlign: bool, ghost i: nat) returns (header: nat)
      requires Valid() && index < blocklist.count && i < |blocks|
      requires blocks[i].free && blocks[i].addr == blocklist.Contents()[index]
      requires Room(blocks[i].addr, blocks[i].size, allocSize, pageAlign)
      requires blocklist.count - 1 + HolesLeft(blocks[i].size, Gap(blocks[i].addr, pageAlign), allocSize) <= blocklist.capacity
      modifies this`mem, this`blocks, blocklist`count, blocklist.elements
      ensures blocklist.Valid() && Laid() && NoAdjacentHoles(blocks)
      ensures Indexes(blocklist.Contents(), Holes(blocks), mem)
      ensures Fits(old(blocks[i]), Gap(old(blocks[i].addr), pageAlign), allocSize)
      ensures LeastGap(old(blocks[i].addr), pageAlign, Gap(old(blocks[i].addr), pageAlign))
      ensures blocks == Allocate(old(blocks), i, Gap(old(blocks[i].addr), pageAlign), allocSize)
      ensures header == old(blocks[i].addr) + Gap(old(blocks[i].addr), pageAlign)
      ensures LivePayload(blocks) == LivePayload(old(blocks)) + SizeAt(mem, header)
      ensures |Live(blocks)| == |Live(old(blocks))| + 1
    {
      hide LaidAt, NoAdjacentHoles, LivePayload, Live, Gap, Carve, PlaceAll, Holes, Indexes, Allocate, Fits, SizeAt,
        HolesLeft, Room, LeastGap;
      ghost var b := blocks[i];
      var addr := blocklist.Get(index);
      BlockInHeap(mem, blocks, start, end, i);
      var size := SizeAt(mem, addr);
      GapFits(b, pageAlign, allocSize);
      var gap := Gap(addr, pageAlign);
      CarveListed(index, addr, size, gap, allocSize, i);
      header := addr + gap;
      AllocateSettles(mem, old(mem), blocks, start, end, i, gap, allocSize);
      AllocateSeparates(blocks, i, gap, allocSize);
      OneMoreLive(old(mem), blocks, start, end, i, gap, allocSize);
      blocks := Allocate(blocks, i, gap, allocSize);
    }

    /** heap_alloc. The heap does not grow, so it answers nothing when no hole is big enough. */
    method Alloc(size: nat, pageAlign: bool) returns (ptr: Option<nat>)
      requires Valid() && size > 0 && RoomToAlloc(size, pageAlign)
      modifies this`mem, this`blocks, this`allocCount, this`bytesAllocd, blocklist`count, blocklist.elements
      ensures Valid()
      ensures ptr.None? ==> unchanged(this) && forall b :: b in blocks ==> !Adequate(b, size, pageAlign)
      ensures ptr.Some? ==>
                && allocCount == old(allocCount) + 1
                && exists i :: BestFit(old(blocks), blocks, i, size, pageAlign, ptr.value)
    {
      hide LaidAt, Holes, Indexes, LivePayload, Live, NoAdjacentHoles, Allocate, Gap, Fits, FirstFit, HolesLeft, Room, LeastGap;
      var blockSize := TotalBlockSize(size);
      var hole := GetSmallestHole(blockSize, pageAlign);
      if hole < 0 {
        NoneAdequate(blocklist.Contents(), mem, blocks, start, end, size, pageAlign);
        return None;
      }
      ghost var i := SmallestAdequate(blocklist.Contents(), mem, blocks, start, end, hole, size, pageAlign);
      BlockInHeap(mem, blocks, start, end, i);
      RoomForLess(blocks[i].addr, blocks[i].size, blockSize, size, pageAlign);
      var header := AllocWithHole(hole, size, pageAlign, i);
      allocCount := allocCount + 1;
      bytesAllocd := bytesAllocd + SizeAt(mem, header);
      assert BestFit(old(blocks), blocks, i, size, pageAlign, UsableAddress(header));
      ptr := Some(UsableAddress(header));
    }

    /** Takes the listed hole at `addr` out of the index, wherever it is. */
    method Unlist(addr: nat)
      requires blocklist.Valid() && addr in blocklist.Contents()
      modifies blocklist`count, blocklist.elements
      ensures blocklist.Valid() && blocklist.count == old(blocklist.count) - 1
      ensures Deleted(old(blocklist.Contents()), blocklist.Contents(), addr)
    {
      ghost var list := blocklist.Contents();
      var j := blocklist.Count();
      var i := 0;
      while i < j
        modifies {}
        invariant 0 <= i <= j
        invariant forall k :: 0 <= k < i ==> list[k] != addr
      {
        var header := blocklist.Get(i);
        if header == addr {
          break;
        }
        i := i + 1;
      }
      blocklist.Remove(i);
    }

    /** Takes hole j, a neighbour of the detached hole k, out of the index. */
    method TakeNeighbour(addr: nat, ghost j: nat, ghost k: nat)
      requires blocklist.Valid() && Detached(mem, blocks, start, end, blocklist.Contents(), k)
      requires (j + 1 == k || j == k + 1) && j < |blocks| && blocks[j].free && addr == blocks[j].addr
      modifies blocklist`count, blocklist.elements
      ensures blocklist.Valid() && blocklist.count < old(blocklist.count)
      ensures Indexes(blocklist.Contents(), HolesBesides(blocks, if j < k then j else k), mem)
    {
      hide LaidAt, Holes, Indexes, Deleted;
      ghost var lo, list := if j < k then j else k, blocklist.Contents();
      NeighbourListed(blocks, lo);
      ListedInIndex(list, Holes(blocks[..lo]), addr, Holes(blocks[lo + 2..]), mem);
      Unlist(addr);
      DeletedFromIndex(list, blocklist.Contents(), Holes(blocks[..lo]), addr, Holes(blocks[lo + 2..]), mem);
    }

    /** unify_left: merges block k with the hole in front of it, if there is one. */
    method UnifyLeft(header: nat, ghost k: nat) returns (header': nat, ghost k': nat)
      requires blocklist.Valid() && Detached(mem, blocks, start, end, blocklist.Contents(), k)
      requires header == blocks[k].addr
      modifies this`mem, this`blocks, blocklist`count, blocklist.elements
      ensures blocklist.Valid() && blocklist.count <= old(blocklist.count)
      ensures k' < k ==> blocklist.count < old(blocklist.count)
      ensures k' == if k > 0 && old(blocks)[k - 1].free then k - 1 else k
      ensures blocks == MergeLeft(old(blocks), k)
      ensures Detached(mem, blocks, start, end, blocklist.Contents(), k') && header' == blocks[k'].addr
    {
      hide LaidAt, Holes, Indexes, Agree, HolesBesides;
      header', k' := header, k;
      FooterInFront(mem, blocks, start, end, k);
      BlockInHeap(mem, blocks, start, end, k);
      FlagTests();
      var testFooter := header - FOOTER_SIZE;
      if testFooter in mem && mem[testFooter].Footer? && mem[testFooter].magic == BLOCK_MAGIC {
        var left := mem[testFooter].header;
        if TestFlag(mem[left].flags, BLOCK_FLAGS_AVAILABLE) {
          var cachedSize := mem[header].size;
          HeaderBehind(mem, blocks, start, end, k - 1);
          MergedMemoryTags(mem, blocks, k - 1);
          TakeNeighbour(left, k - 1, k);
          ghost var mem0 := mem;
          mem := mem[left := mem[left].(size := mem[left].size + TotalBlockSize(cachedSize))]
                    [FooterAddress(header, cachedSize) := Footer(BLOCK_MAGIC, left)];
          PairSettles(mem0, mem, blocks, start, end, blocklist.Contents(), k - 1);
          blocks := MergePair(blocks, k - 1);
          header', k' := left, k - 1;
        }
      }
    }

    /** unify_right: merges block k with the hole behind it, if there is one. */
    method UnifyRight(header: nat, ghost k: nat)
      requires blocklist.Valid() && Detached(mem, blocks, start, end, blocklist.Contents(), k)
      requires header == blocks[k].addr
      modifies this`mem, this`blocks, blocklist`count, blocklist.elements
      ensures blocklist.Valid() && blocklist.count <= old(blocklist.count)
      ensures k + 1 < |old(blocks)| && old(blocks)[k + 1].free ==> blocklist.count < old(blocklist.count)
      ensures blocks == MergeRight(old(blocks), k)
      ensures Detached(mem, blocks, start, end, blocklist.Contents(), k) && header == blocks[k].addr
    {
      hide LaidAt, Holes, Indexes, Agree, HolesBesides;
      HeaderBehind(mem, blocks, start, end, k);
      BlockInHeap(mem, blocks, start, end, k);
      FlagTests();
      var testHeader := FooterEnd(FooterAddress(header, mem[header].size));
      if testHeader in mem && mem[testHeader].Header? && mem[testHeader].magic == BLOCK_MAGIC
         && TestFlag(mem[testHeader].flags, BLOCK_FLAGS_AVAILABLE) {
        MergedMemoryTags(mem, blocks, k);
        TakeNeighbour(testHeader, k + 1, k);
        ghost var mem0 := mem;
        var testSize := mem[testHeader].size;
        mem := mem[header := mem[header].(size := mem[header].size + TotalBlockSize(testSize))]
                  [FooterAddress(testHeader, testSize) := Footer(BLOCK_MAGIC, header)];
        PairSettles(mem0, mem, blocks, start, end, blocklist.Contents(), k);
        blocks := MergePair(blocks, k);
      }
    }

    /** heap_free of live block i; a null pointer is ignored. */
    method Free(ptr: nat, ghost i: nat)
      requires Valid()
      requires ptr != 0 ==> i < |blocks| && !blocks[i].free && ptr == UsableAddress(blocks[i].addr) && RoomToFree(i)
      modifies this`mem, this`blocks, this`freeCount, this`bytesAllocd, blocklist`count, blocklist.elements
      ensures Valid()
      ensures ptr == 0 ==> unchanged(this)
      ensures ptr != 0 ==> blocks == Release(old(blocks), i) && freeCount == old(freeCount) + 1
      ensures ptr != 0 ==> bytesAllocd == old(bytesAllocd) - old(blocks)[i].size
    {
      if ptr == 0 {
        return;
      }
      hide LaidAt, Holes, Indexes, LivePayload, Live, NoAdjacentHoles, Release, FirstMerged, LastMerged;
      var header := ptr - HEADER_SIZE;
      BlockInHeap(mem, blocks, start, end, i);
      var originalSize := mem[header].size;
      Reclaim(header, i);
      freeCount := freeCount + 1;
      bytesAllocd := bytesAllocd - originalSize;
    }

    /** Marks live block i as a hole, unifies it with the holes beside it and lists the result. */
    method Reclaim(header: nat, ghost i: nat)
      requires blocklist.Valid() && LaidAt(mem, blocks, start, end) && NoAdjacentHoles(blocks)
      requires Indexes(blocklist.Contents(), Holes(blocks), mem)
      requires i < |blocks| && !blocks[i].free && header == blocks[i].addr && RoomToFree(i)
      modifies this`mem, this`blocks, blocklist`count, blocklist.elements
      ensures blocklist.Valid() && LaidAt(mem, blocks, start, end) && NoAdjacentHoles(blocks)
      ensures Indexes(blocklist.Contents(), Holes(blocks), mem)
      ensures blocks == Release(old(blocks), i)
      ensures LivePayload(blocks) == LivePayload(old(blocks)) - old(blocks)[i].size
      ensures |Live(blocks)| == |Live(old(blocks))| - 1
    {
      hide LaidAt, Holes, Indexes, LivePayload, Live, NoAdjacentHoles, Release, MergeLeft, MergeRight, Sorted, Detached;
      ReleaseByPairs(blocks, i);
      ReleaseSeparates(blocks, i);
      LiveAfterRelease(mem, blocks, start, end, i);
      MarkDetaches(mem, blocks, start, end, blocklist.Contents(), i);
      mem := mem[header := mem[header].(flags := BLOCK_FLAGS_AVAILABLE)];
      blocks := MarkFree(blocks, i);
      var hole: nat;
      ghost var k: nat;
      RightNeighbour(old(blocks), i);
      hole, k := UnifyLeft(header, i);
      UnifyRight(hole, k);
      Relist(hole, k);
    }

    /** Puts the detached hole k back into the index. */
    method Relist(header: nat, ghost k: nat)
      requires blocklist.Valid() && Detached(mem, blocks, start, end, blocklist.Contents(), k)
      requires header == blocks[k].addr && blocklist.count < blocklist.capacity
      modifies blocklist`count, blocklist.elements
      ensures blocklist.Valid() && Indexes(blocklist.Contents(), Holes(blocks), mem)
      ensures LaidAt(mem, blocks, start, end)
    {
      hide LaidAt, Holes, Sorted, LowerBound;
      ghost var list := blocklist.Contents();
      HolesAround(blocks, k);
      BySizeIsOrder(mem);
      InsertKeepsSorted(list, header, BySize(mem));
      var _ := blocklist.Add(header, BySize(mem));
    }
  }

  lemma FlagTests()
    ensures TestFlag(BLOCK_FLAGS_AVAILABLE, BLOCK_FLAGS_AVAILABLE)
    ensures !TestFlag(BLOCK_FLAGS_ALLOCATED, BLOCK_FLAGS_AVAILABLE)
  {
  }

  lemma LiveAfterRelease(mem: Memory, blocks: seq<Block>, start: nat, end: nat, i: nat)
    requires LaidAt(mem, blocks, start, end) && i < |blocks| && !blocks[i].free
    ensures LivePayload(Release(blocks, i)) == LivePayload(blocks) - blocks[i].size
    ensures |Live(Release(blocks, i))| == |Live(blocks)| - 1
  {
    hide Live;
    ReleaseTiles(blocks, start, i);
    ReleaseTakes(blocks, start, i);
  }

  /** If the search fails, no block is an adequate hole. */
  lemma NoneAdequate(list: seq<nat>, mem: Memory, blocks: seq<Block>, start: nat, end: nat, size: nat, pageAlign: bool)
    requires LaidAt(mem, blocks, start, end) && Indexes(list, Holes(blocks), mem)
    requires forall k :: 0 <= k < |list| ==> !Room(list[k], SizeAt(mem, list[k]), TotalBlockSize(size), pageAlign)
    ensures forall b :: b in blocks ==> !Adequate(b, size, pageAlign)
  {
    forall b | b in blocks
      ensures !Adequate(b, size, pageAlign)
    {
      var j :| 0 <= j < |blocks| && blocks[j] == b;
      if b.free {
        var k := ListedAt(list, mem, blocks, start, end, j);
      }
    }
  }

  /** Where a hole is in the index. */
  lemma ListedAt(list: seq<nat>, mem: Memory, blocks: seq<Block>, start: nat, end: nat, j: nat) returns (k: nat)
    requires LaidAt(mem, blocks, start, end) && Indexes(list, Holes(blocks), mem)
    requires j < |blocks| && blocks[j].free
    ensures k < |list| && list[k] == blocks[j].addr && SizeAt(mem, list[k]) == blocks[j].size
  {
    hide Holes, Sorted, LaidAt;
    BlockInHeap(mem, blocks, start, end, j);
    BlockIsHole(blocks, j);
    assert blocks[j].addr in multiset(Holes(blocks));
    assert blocks[j].addr in multiset(list);
    k :| 0 <= k < |list| && list[k] == blocks[j].addr;
  }

  /** The first listed hole that is big enough is a smallest adequate block. */
  lemma SmallestAdequate(list: seq<nat>, mem: Memory, blocks: seq<Block>, start: nat, end: nat, hole: nat, size: nat, pageAlign: bool)
    returns (i: nat)
    requires LaidAt(mem, blocks, start, end) && Indexes(list, Holes(blocks), mem) && hole < |list|
    requires Room(list[hole], SizeAt(mem, list[hole]), TotalBlockSize(size), pageAlign)
    requires forall k :: 0 <= k < hole ==> !Room(list[k], SizeAt(mem, list[k]), TotalBlockSize(size), pageAlign)
    ensures i < |blocks| && blocks[i].addr == list[hole] && Adequate(blocks[i], size, pageAlign)
    ensures forall j :: 0 <= j < |blocks| && Adequate(blocks[j], size, pageAlign) ==> blocks[i].size <= blocks[j].size
  {
    hide Holes, LaidAt, Room;
    assert list[hole] in multiset(list);
    i := HoleIsBlock(blocks, list[hole]);
    BlockInHeap(mem, blocks, start, end, i);
    BySizeIsOrder(mem);
    forall j | 0 <= j < |blocks| && Adequate(blocks[j], size, pageAlign)
      ensures blocks[i].size <= blocks[j].size
    {
      var k := ListedAt(list, mem, blocks, start, end, j);
      if k != hole {
        assert hole < k;
        assert !BySize(mem)(list[k], list[hole]);
      }
    }
  }

  lemma GapFits(b: Block, pageAlign: bool, size: nat)
    requires b.free && PAGE_SIZE <= b.addr && BlockEnd(b) < WORD_LIMIT
    requires Room(b.addr, b.size, size, pageAlign)
    ensures Fits(b, Gap(b.addr, pageAlign), size) && LeastGap(b.addr, pageAlign, Gap(b.addr, pageAlign))
  {
    GapAligns(b.addr, pageAlign);
    GapIsLeast(b.addr, pageAlign);
    hide Gap, AlignedGap;
  }

  lemma RoomForLess(addr: nat, holeSize: nat, more: nat, size: nat, pageAlign: bool)
    requires Room(addr, holeSize, more, pageAlign) && size <= more
    ensures Room(addr, holeSize, size, pageAlign)
  {
  }

  lemma ListedInHeap(list: seq<nat>, mem: Memory, blocks: seq<Block>, start: nat, end: nat, k: nat)
    requires LaidAt(mem, blocks, start, end) && Indexes(list, Holes(blocks), mem) && k < |list|
    ensures start <= list[k] && list[k] + MINIMUM_BLOCK_SIZE <= end
  {
    hide Holes, LaidAt;
    assert list[k] in multiset(list);
    var i := HoleIsBlock(blocks, list[k]);
    BlockInHeap(mem, blocks, start, end, i);
  }

  /** The first hole of a list that is big enough, or the length of the list. */
  ghost function FirstFit(list: seq<nat>, mem: Memory, size: nat, aligned: bool): (j: nat)
    ensures j <= |list|
    ensures j < |list| ==> Room(list[j], SizeAt(mem, list[j]), size, aligned)
    ensures forall k :: 0 <= k < j ==> !Room(list[k], SizeAt(mem, list[k]), size, aligned)
  {
    if list == [] || Room(list[0], SizeAt(mem, list[0]), size, aligned) then 0
    else 1 + FirstFit(list[1..], mem, size, aligned)
  }

  lemma FirstFitIs(list: seq<nat>, mem: Memory, size: nat, aligned: bool, j: nat)
    requires j <= |list| && (j < |list| ==> Room(list[j], SizeAt(mem, list[j]), size, aligned))
    requires forall k :: 0 <= k < j ==> !Room(list[k], SizeAt(mem, list[k]), size, aligned)
    ensures FirstFit(list, mem, size, aligned) == j
  {
    hide Room;
    assert FirstFit(list, mem, size, aligned) <= |list|;
  }

  /** The number of holes that carving leaves of one. */
  function HolesLeft(holeSize: nat, gap: nat, size: nat): nat {
    (if gap > 0 then 1 else 0) + if holeSize > gap + size + MINIMUM_BLOCK_SIZE then 1 else 0
  }

  /** It is the number of holes among the pieces. */
  lemma HolesLeftAre(b: Block, gap: nat, size: nat)
    requires Fits(b, gap, size)
    ensures HolesLeft(b.size, gap, size) == |Holes(Carve(b, gap, size))|
  {
    CarveParts(map[], b, gap, size);
    hide Carve, Holes;
    OnePlaced(map[], HeapTags.Front(b, gap));
    OnePlaced(map[], Back(b, gap, size));
  }

  lemma OneMoreLive(mem: Memory, blocks: seq<Block>, start: nat, end: nat, i: nat, gap: nat, size: nat)
    requires LaidAt(mem, blocks, start, end) && i < |blocks| && Fits(blocks[i], gap, size)
    ensures |Live(Allocate(blocks, i, gap, size))| == |Live(blocks)| + 1
  {
    hide Live, Allocate, Carve;
    CarveFits(blocks[i], gap, size);
    AllocateAdds(blocks, start, i, gap, size);
  }

  /** What block i has on its right does not change when it is merged to the left. */
  lemma RightNeighbour(blocks: seq<Block>, i: nat)
    requires i < |blocks| && !blocks[i].free
    ensures var lo, left := FirstMerged(blocks, i), MergeLeft(MarkFree(blocks, i), i);
            i < LastMerged(blocks, i) ==> lo + 1 < |left| && left[lo + 1].free
  {
    LeftForm(blocks, i);
    hide MergeLeft, MarkFree;
    if i < LastMerged(blocks, i) {
      var lo, left := FirstMerged(blocks, i), MergeLeft(MarkFree(blocks, i), i);
      assert left[lo + 1] == blocks[i + 1];
    }
  }
}
