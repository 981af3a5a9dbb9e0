/** Footers, splits, merges and the index as heap.c writes them, where that is not what its layout
    helpers and comments ask for (arch/i686/mem/heap.c). */
module HeapAsWritten {
  import opened Alignment
  import opened SortedArrays
  import opened HeapModel
  import opened HeapTags
  import opened Heap

  /** place_footer as written counts the payload in headers instead of bytes: it never finds the place
      that the layout gives to the footer, and from three bytes of payload on it writes behind the
      block. */
  lemma FooterAsWritten(b: Block)
    requires BlockEnd(b) < WORD_LIMIT && b.size < 0x8000_0000
    ensures var written := b.addr + HEADER_SIZE * b.size;
            && written % WORD_LIMIT != FooterAddress(b.addr, b.size)
            && (written >= BlockEnd(b) <==> b.size >= 3)
  {
    var written := b.addr + HEADER_SIZE * b.size;
    var q := written / WORD_LIMIT;
    assert written == WORD_LIMIT * q + written % WORD_LIMIT;
    assert q < 9;
  }

  /** heap_free as written takes a footer inside the block, two pieces of overhead too low. */
  lemma FreedFooterAsWritten(b: Block)
    ensures b.addr + b.size - FOOTER_SIZE == FooterAddress(b.addr, b.size) - MINIMUM_BLOCK_SIZE
  {
  }

  // ---------- Splitting ----------

  /** Whether the search takes a hole: it has the whole size of the block behind the next page. */
  predicate Found(b: Block, pageAlign: bool, allocSize: nat) {
    var usable := UsableAddress(b.addr);
    var offset := if pageAlign && !IsAligned(usable, PAGE_SIZE) then PAGE_SIZE - usable % PAGE_SIZE else 0;
    b.free && PAGE_SIZE <= b.addr && BlockEnd(b) < WORD_LIMIT && b.size >= offset + TotalBlockSize(allocSize)
  }

  /** How far the header moves for a page-aligned block; sums are taken modulo 2^32. */
  function Front(addr: nat, pageAlign: bool): int {
    if pageAlign && !IsAligned(addr, PAGE_SIZE) then PAGE_SIZE - addr % PAGE_SIZE - HEADER_SIZE else 0
  }

  lemma FoundFits(b: Block, pageAlign: bool, allocSize: nat)
    requires Found(b, pageAlign, allocSize)
    ensures b.size >= TotalBlockSize(allocSize)
    ensures 0 <= b.addr + Front(b.addr, pageAlign) && b.size >= Front(b.addr, pageAlign) + TotalBlockSize(allocSize)
  {
    hide IsAligned, PowerOfTwo;
    UnitsArePowers();
    NeverAligned(UsableAddress(b.addr), PAGE_SIZE);
    NextPageFrom(b.addr);
  }

  /** The header moves no further than the usable memory. */
  lemma NextPageFrom(addr: nat)
    ensures var front: int := PAGE_SIZE - addr % PAGE_SIZE - HEADER_SIZE;
            0 < front + HEADER_SIZE && front <= PAGE_SIZE - (addr + HEADER_SIZE) % PAGE_SIZE
  {
  }

  /** The request after it has taken in a rest that is too small for a hole. */
  function Granted(b: Block, pageAlign: bool, allocSize: nat): nat
    requires Found(b, pageAlign, allocSize)
  {
    if b.size - TotalBlockSize(allocSize) <= MINIMUM_BLOCK_SIZE then b.size - MINIMUM_BLOCK_SIZE else allocSize
  }

  /** The hole in front of an aligned block: the whole gap is its payload. */
  function FrontWritten(b: Block, pageAlign: bool): Block
    requires Front(b.addr, pageAlign) >= 0
  {
    Block(b.addr, Front(b.addr, pageAlign), true)
  }

  /** The block that alloc_with_hole makes: its total size goes where the payload belongs. */
  function BlockWritten(b: Block, pageAlign: bool, allocSize: nat): Block
    requires Found(b, pageAlign, allocSize)
  {
    FoundFits(b, pageAlign, allocSize);
    Block(b.addr + Front(b.addr, pageAlign), TotalBlockSize(Granted(b, pageAlign, allocSize)), false)
  }

  /** The test for a rest behind the block compares two sizes that always differ by the same amount. */
  predicate RestWritten(allocSize: nat) {
    (allocSize - TotalBlockSize(allocSize)) % WORD_LIMIT > MINIMUM_BLOCK_SIZE
  }

  /** The hole made behind it, which create_hole shortens if it would end behind the heap. */
  function BehindWritten(b: Block, pageAlign: bool, allocSize: nat, end: nat): Block
    requires Found(b, pageAlign, allocSize)
  {
    FoundFits(b, pageAlign, allocSize);
    var addr := BlockWritten(b, pageAlign, allocSize).addr + TotalBlockSize(Granted(b, pageAlign, allocSize));
    var size := b.size - Front(b.addr, pageAlign) - MINIMUM_BLOCK_SIZE;
    Block(addr, if addr + TotalBlockSize(size) > end then (size - FOOTER_SIZE) % WORD_LIMIT else size, true)
  }

  /** However a hole is split, a hole is made behind the block, although there may be no rest. It starts
      one header and one footer inside the block, and as long as that is in the heap it ends as far
      behind the hole that was split as the block has payload. A hole in front reaches as far into the
      block. So the pieces never tile. */
  lemma SplitAsWritten(b: Block, pageAlign: bool, allocSize: nat, end: nat)
    requires Found(b, pageAlign, allocSize)
    ensures RestWritten(Granted(b, pageAlign, allocSize))
    ensures var block, behind := BlockWritten(b, pageAlign, allocSize), BehindWritten(b, pageAlign, allocSize, end);
            var past := BlockEnd(b) + Granted(b, pageAlign, allocSize);
            && behind.addr == BlockEnd(block) - MINIMUM_BLOCK_SIZE
            && (past <= end ==> BlockEnd(behind) == past)
            && (forall start: nat :: !Tiled([block, behind], start))
            && (Front(b.addr, pageAlign) > 0 ==> BlockEnd(FrontWritten(b, pageAlign)) == block.addr + MINIMUM_BLOCK_SIZE)
  {
    FoundFits(b, pageAlign, allocSize);
    var block, behind := BlockWritten(b, pageAlign, allocSize), BehindWritten(b, pageAlign, allocSize, end);
    assert [block, behind][1..] == [behind];
  }

  // ---------- The index ----------

  function Listed(list: seq<nat>, x: nat, mem: Memory): seq<nat> {
    Insert(list, LowerBound(list, x, BySize(mem)), x)
  }

  /** What the search answers for a size. */
  ghost predicate Answers(list: seq<nat>, mem: Memory, size: nat, x: nat) {
    var j := FirstFit(list, mem, size, false);
    j < |list| && list[j] == x
  }

  /** A block just listed is the answer for its own size. */
  lemma ListedIsAnswer(list: seq<nat>, x: nat, mem: Memory)
    ensures Answers(Listed(list, x, mem), mem, SizeAt(mem, x), x)
  {
    hide SizeAt;
    FirstFitIs(Listed(list, x, mem), mem, SizeAt(mem, x), false, LowerBound(list, x, BySize(mem)));
  }

  /** Listing one that is of another size leaves an answer of just the size asked for as it is. */
  lemma AnswerStays(list: seq<nat>, x: nat, y: nat, mem: Memory)
    requires Answers(list, mem, SizeAt(mem, x), x) && SizeAt(mem, y) != SizeAt(mem, x)
    ensures Answers(Listed(list, y, mem), mem, SizeAt(mem, x), x)
  {
    hide SizeAt;
    var size := SizeAt(mem, x);
    var j, k := FirstFit(list, mem, size, false), LowerBound(list, y, BySize(mem));
    FirstFitIs(Listed(list, y, mem), mem, size, false, if k <= j then j + 1 else j);
  }

  /** create_or_update_block lists the block it makes among the holes. As block sizes stand where
      payloads belong, the next unaligned search for that size answers that very block, which is in use,
      unless the hole listed after it has the same size: then it answers that hole, which overlaps it. */
  lemma HandedOutAgain(list: seq<nat>, mem: Memory, block: nat, behind: nat)
    ensures Answers(Listed(Listed(list, block, mem), behind, mem), mem, SizeAt(mem, block),
                    if SizeAt(mem, behind) == SizeAt(mem, block) then behind else block)
  {
    ListedIsAnswer(list, block, mem);
    hide Listed, Answers;
    if SizeAt(mem, behind) == SizeAt(mem, block) {
      ListedIsAnswer(Listed(list, block, mem), behind, mem);
    } else {
      AnswerStays(Listed(list, block, mem), block, behind, mem);
    }
  }

  // ---------- Merging ----------

  /** unify_left and unify_right as written add payloads only: the merged hole ends short of the two
      blocks by the header and the footer that were swallowed. */
  lemma MergeAsWritten(left: Block, right: Block)
    requires right.addr == BlockEnd(left)
    ensures BlockEnd(Block(left.addr, left.size + right.size, true)) == BlockEnd(right) - MINIMUM_BLOCK_SIZE
    ensures Extent([Block(left.addr, left.size + right.size, true)]) != Extent([left, right])
  {
    assert [left, right][1..] == [right] && [right][1..] == [];
  }

  /** unify_left enlarges a hole that stays where it is in the index. The index is sorted afterwards
      exactly if the next hole in it is not smaller. */
  lemma GrownInPlace(list: seq<nat>, mem: Memory, mem': Memory, i: nat)
    requires i < |list| && Sorted(list, BySize(mem))
    requires forall k :: 0 <= k < |list| && k != i ==> SizeAt(mem', list[k]) == SizeAt(mem, list[k])
    requires SizeAt(mem', list[i]) >= SizeAt(mem, list[i])
    ensures Sorted(list, BySize(mem')) <==> i + 1 == |list| || SizeAt(mem', list[i]) <= SizeAt(mem', list[i + 1])
  {
    forall j, k | 0 <= j < k < |list|
      ensures !BySize(mem)(list[k], list[j]) && SizeAt(mem, list[j]) <= SizeAt(mem, list[k])
    {
    }
    if i + 1 < |list| {
      if SizeAt(mem', list[i]) > SizeAt(mem', list[i + 1]) {
        assert BySize(mem')(list[i + 1], list[i]);
      }
    }
  }
}
