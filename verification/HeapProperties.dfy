/** What allocation and freeing keep, and that freeing undoes allocation
    (arch/i686/mem/heap.c). */
module HeapProperties {
  import opened Alignment
  import opened HeapModel

  /** The blocks after `size` bytes were allocated in hole i. */
  function Allocate(blocks: seq<Block>, i: nat, gap: nat, size: nat): seq<Block>
    requires i < |blocks| && Fits(blocks[i], gap, size)
  {
    blocks[..i] + Carve(blocks[i], gap, size) + blocks[i + 1..]
  }

  predicate Fits(b: Block, gap: nat, size: nat) {
    b.free && b.size >= gap + size && (gap == 0 || gap > MINIMUM_BLOCK_SIZE)
  }

  lemma Around(blocks: seq<Block>, i: nat)
    requires i < |blocks|
    ensures blocks == blocks[..i] + [blocks[i]] + blocks[i + 1..]
  {
  }

  lemma AllocateTiles(blocks: seq<Block>, start: nat, i: nat, gap: nat, size: nat)
    requires Tiled(blocks, start) && i < |blocks| && Fits(blocks[i], gap, size)
    ensures Tiled(Allocate(blocks, i, gap, size), start)
    ensures Extent(Allocate(blocks, i, gap, size)) == Extent(blocks)
    ensures LivePayload(Allocate(blocks, i, gap, size))
         == LivePayload(blocks) + Carve(blocks[i], gap, size)[CarvedAt(gap)].size
  {
    hide Tiled, Extent, LivePayload, Carve;
    var b := blocks[i];
    Around(blocks, i);
    BlockPosition(blocks, start, i);
    OneBlock(b);
    CarveFits(b, gap, size);
    TiledReplace(blocks[..i], [b], blocks[i + 1..], Carve(b, gap, size), start);
    SumsConcat(blocks[..i] + [b], blocks[i + 1..]);
    SumsConcat(blocks[..i], [b]);
    SumsConcat(blocks[..i] + Carve(b, gap, size), blocks[i + 1..]);
    SumsConcat(blocks[..i], Carve(b, gap, size));
  }

  /** Splitting a hole creates no two holes side by side. */
  lemma AllocateSeparates(blocks: seq<Block>, i: nat, gap: nat, size: nat)
    requires NoAdjacentHoles(blocks) && i < |blocks| && Fits(blocks[i], gap, size)
    ensures NoAdjacentHoles(Allocate(blocks, i, gap, size))
  {
    CarveFits(blocks[i], gap, size);
    Around(blocks, i);
    ReplaceSeparates(blocks[..i], blocks[i], blocks[i + 1..], Carve(blocks[i], gap, size));
  }

  lemma ReplaceSeparates(a: seq<Block>, h: Block, b: seq<Block>, m: seq<Block>)
    requires NoAdjacentHoles(a + [h] + b) && h.free && |m| > 0 && NoAdjacentHoles(m)
    ensures NoAdjacentHoles(a + m + b)
  {
    var s, t := a + [h] + b, a + m + b;
    forall i, j | 0 <= i < |t| && j == i + 1 && j < |t|
      ensures !(t[i].free && t[j].free)
    {
      var d := |m| - 1;
      if j < |a| {
        assert !(s[i].free && s[j].free);
      } else if j == |a| && |a| > 0 {
        assert s[j] == h && !s[i].free;
      } else if i == |a| + d {
        assert s[|a|] == h && !s[|a| + 1].free;
      } else if i > |a| + d {
        assert !(s[i - d].free && s[j - d].free);
      }
    }
  }

  /** heap_alloc took the smallest hole that is big enough for a whole block of the requested size
      (after alignment), and answers the usable address of what it carved out of it. */
  ghost predicate BestFit(before: seq<Block>, after: seq<Block>, i: nat, size: nat, pageAlign: bool, ptr: nat) {
    && i < |before| && Adequate(before[i], size, pageAlign)
    && (forall j :: 0 <= j < |before| && Adequate(before[j], size, pageAlign) ==> before[i].size <= before[j].size)
    && var gap := Gap(before[i].addr, pageAlign);
    && LeastGap(before[i].addr, pageAlign, gap) && Fits(before[i], gap, size)
    && after == Allocate(before, i, gap, size)
    && ptr == UsableAddress(before[i].addr + gap)
  }

  /** A hole with room for a whole block of the size asked for, behind a gap that aligns if asked. */
  ghost predicate Adequate(b: Block, size: nat, pageAlign: bool) {
    b.free && Room(b.addr, b.size, TotalBlockSize(size), pageAlign)
  }

  /** The block handed out: it lies in the heap, with 16 bytes for its header in front of the memory and
      16 for its footer behind it; it is at least as big as requested, page-aligned if asked, apart from
      every live block, and all live blocks are still there. */
  ghost predicate FreshMemory(before: seq<Block>, after: seq<Block>, start: nat, k: nat, size: nat, pageAlign: bool, ptr: nat) {
    && k < |after| && !after[k].free && ptr == UsableAddress(after[k].addr) && after[k].size >= size
    && start <= after[k].addr && BlockEnd(after[k]) <= start + Extent(before)
    && ptr == after[k].addr + 16 && ptr + after[k].size + 16 == BlockEnd(after[k])
    && (pageAlign ==> ptr % PAGE_SIZE == 0)
    && (forall b :: b in before && !b.free ==> b in after && Apart(b, after[k]))
  }

  predicate Apart(b: Block, c: Block) {
    BlockEnd(b) <= c.addr || BlockEnd(c) <= b.addr
  }

  lemma AllocGivesFreshMemory(before: seq<Block>, after: seq<Block>, start: nat, i: nat, size: nat, pageAlign: bool, ptr: nat)
    requires BestFit(before, after, i, size, pageAlign, ptr)
    requires Tiled(before, start) && PAGE_SIZE <= start && start + Extent(before) < WORD_LIMIT
    ensures FreshMemory(before, after, start, i + CarvedAt(Gap(before[i].addr, pageAlign)), size, pageAlign, ptr)
  {
    hide Tiled, Extent, Carve, Adequate, Gap, LeastGap;
    var hole, gap := before[i], Gap(before[i].addr, pageAlign);
    var k := i + CarvedAt(gap);
    BlockPosition(before, start, i);
    GapAligns(hole.addr, pageAlign);
    CarveFits(hole, gap, size);
    assert after[k] == Carve(hole, gap, size)[CarvedAt(gap)];
    AllocateTiles(before, start, i, gap, size);
    BlockPosition(after, start, k);
    forall b | b in before && !b.free
      ensures b in after && Apart(b, after[k])
    {
      var j :| 0 <= j < |before| && before[j] == b;
      var j' := if j < i then j else j + |after| - |before|;
      assert after[j'] == b;
      if j' < k {
        BlocksInOrder(after, start, j', k);
      } else {
        BlocksInOrder(after, start, k, j');
      }
    }
  }

  // ---------- Freeing ----------

  /** The extent and payload of the merged hole. */
  function Merged(blocks: seq<Block>, i: nat): Block
    requires i < |blocks|
  {
    var lo, hi := FirstMerged(blocks, i), LastMerged(blocks, i);
    MergeSize(blocks, lo, hi);
    Block(blocks[lo].addr, Extent(blocks[lo..hi + 1]) - MINIMUM_BLOCK_SIZE, true)
  }

  lemma MergeSize(blocks: seq<Block>, lo: nat, hi: nat)
    requires lo <= hi < |blocks|
    ensures Extent(blocks[lo..hi + 1]) >= MINIMUM_BLOCK_SIZE
  {
  }

  /** Blocks k and k + 1 become one hole. */
  function MergePair(blocks: seq<Block>, k: nat): seq<Block>
    requires k + 1 < |blocks|
  {
    blocks[..k] + [Block(blocks[k].addr, blocks[k].size + TotalBlockSize(blocks[k + 1].size), true)] + blocks[k + 2..]
  }

  function MarkFree(blocks: seq<Block>, i: nat): (r: seq<Block>)
    requires i < |blocks|
    ensures |r| == |blocks|
  {
    blocks[i := blocks[i].(free := true)]
  }

  function MergeLeft(blocks: seq<Block>, k: nat): seq<Block>
    requires k < |blocks|
  {
    if k > 0 && blocks[k - 1].free then MergePair(blocks, k - 1) else blocks
  }

  function MergeRight(blocks: seq<Block>, k: nat): seq<Block>
    requires k < |blocks|
  {
    if k + 1 < |blocks| && blocks[k + 1].free then MergePair(blocks, k) else blocks
  }

  /** Marking the block, merging to the left and then to the right is the same as taking in both
      neighbours at once. */
  lemma ReleaseByPairs(blocks: seq<Block>, i: nat)
    requires i < |blocks| && !blocks[i].free
    ensures FirstMerged(blocks, i) < |MergeLeft(MarkFree(blocks, i), i)|
    ensures MergeRight(MergeLeft(MarkFree(blocks, i), i), FirstMerged(blocks, i)) == Release(blocks, i)
  {
    hide Extent, Release, MergeLeft, MergeRight, MarkFree;
    var lo, hi := FirstMerged(blocks, i), LastMerged(blocks, i);
    ReleaseForm(blocks, i);
    LeftForm(blocks, i);
    var left, rest := MergeLeft(MarkFree(blocks, i), i), blocks[i + 1..];
    RightForm(blocks[..lo], left[lo], rest);
    if hi > i {
      assert rest[0] == blocks[hi] && rest[1..] == blocks[hi + 1..];
    }
  }

  lemma RightForm(a: seq<Block>, x: Block, rest: seq<Block>)
    ensures MergeRight(a + [x] + rest, |a|) ==
              if rest != [] && rest[0].free then a + [Block(x.addr, x.size + TotalBlockSize(rest[0].size), true)] + rest[1..]
              else a + [x] + rest
  {
    var s, k := a + [x] + rest, |a|;
    assert s[k] == x && s[..k] == a;
    if rest != [] {
      assert s[k + 1] == rest[0] && s[k + 2..] == rest[1..];
    }
  }

  /** The released blocks, with the size of the hole spelled out. */
  lemma ReleaseForm(blocks: seq<Block>, i: nat)
    requires i < |blocks|
    ensures var lo, hi := FirstMerged(blocks, i), LastMerged(blocks, i);
            var left := if lo < i then TotalBlockSize(blocks[i].size) else 0;
            var right := if hi > i then TotalBlockSize(blocks[hi].size) else 0;
            Release(blocks, i) == blocks[..lo] + [Block(blocks[lo].addr, blocks[lo].size + left + right, true)] + blocks[hi + 1..]
  {
    hide Extent;
    ExtentOfFew(blocks, FirstMerged(blocks, i), LastMerged(blocks, i));
  }

  /** After the merge to the left: the hole that takes in block i, between the untouched blocks. */
  lemma LeftForm(blocks: seq<Block>, i: nat)
    requires i < |blocks| && !blocks[i].free
    ensures var lo, left := FirstMerged(blocks, i), MergeLeft(MarkFree(blocks, i), i);
            && lo < |left|
            && left[lo] == Block(blocks[lo].addr, blocks[lo].size + if lo < i then TotalBlockSize(blocks[i].size) else 0, true)
            && left == blocks[..lo] + [left[lo]] + blocks[i + 1..]
  {
  }

  lemma ExtentOfFew(blocks: seq<Block>, lo: nat, hi: nat)
    requires lo <= hi < |blocks| && hi <= lo + 2
    ensures Extent(blocks[lo..hi + 1]) == TotalBlockSize(blocks[lo].size)
              + (if hi > lo then TotalBlockSize(blocks[lo + 1].size) else 0)
              + (if hi > lo + 1 then TotalBlockSize(blocks[lo + 2].size) else 0)
  {
    hide Extent;
    ExtentStep(blocks, lo, hi);
    if hi > lo {
      ExtentStep(blocks, lo + 1, hi);
      if hi > lo + 1 {
        ExtentStep(blocks, lo + 2, hi);
      }
    }
  }

  lemma ExtentStep(blocks: seq<Block>, lo: nat, hi: nat)
    requires lo <= hi < |blocks|
    ensures Extent(blocks[lo..hi + 1])
         == TotalBlockSize(blocks[lo].size) + if lo == hi then 0 else Extent(blocks[lo + 1..hi + 1])
  {
    assert blocks[lo..hi + 1][1..] == blocks[lo + 1..hi + 1];
  }

  lemma ReleaseTiles(blocks: seq<Block>, start: nat, i: nat)
    requires Tiled(blocks, start) && i < |blocks| && !blocks[i].free
    ensures Tiled(Release(blocks, i), start)
    ensures Extent(Release(blocks, i)) == Extent(blocks)
    ensures LivePayload(Release(blocks, i)) == LivePayload(blocks) - blocks[i].size
  {
    hide Tiled, Extent, LivePayload;
    var lo, hi := FirstMerged(blocks, i), LastMerged(blocks, i);
    var a, m, b, h := blocks[..lo], blocks[lo..hi + 1], blocks[hi + 1..], Merged(blocks, i);
    ThreeParts(blocks, lo, hi + 1);
    BlockPosition(blocks, start, lo);
    OneBlock(h);
    TiledReplace(a, m, b, [h], start);
    SumsConcat(a + m, b);
    SumsConcat(a, m);
    SumsConcat(a + [h], b);
    SumsConcat(a, [h]);
    LiveOfMerged(blocks, i);
  }

  lemma ThreeParts(blocks: seq<Block>, lo: nat, hi: nat)
    requires lo <= hi <= |blocks|
    ensures blocks == blocks[..lo] + blocks[lo..hi] + blocks[hi..]
  {
  }

  lemma LiveOfMerged(blocks: seq<Block>, i: nat)
    requires i < |blocks| && !blocks[i].free
    ensures LivePayload(blocks[FirstMerged(blocks, i)..LastMerged(blocks, i) + 1]) == blocks[i].size
  {
    hide LivePayload, Extent, Tiled, Holes;
    var lo, hi := FirstMerged(blocks, i), LastMerged(blocks, i);
    var m, d := blocks[lo..hi + 1], i - lo;
    ThreeParts(m, d, d + 1);
    OneBlock(blocks[lo]);
    OneBlock(blocks[i]);
    OneBlock(blocks[hi]);
    LiveOfNothing();
    assert |m| == hi + 1 - lo && m[d] == blocks[i] && m[0] == blocks[lo] && m[|m| - 1] == blocks[hi];
    assert m[d..d + 1] == [m[d]];
    if d == 0 {
      assert m[..d] == [];
    } else {
      assert m[..d] == [m[0]];
    }
    if hi == i {
      assert m[d + 1..] == [];
    } else {
      assert m[d + 1..] == [m[|m| - 1]];
    }
    SumsConcat(m[..d] + m[d..d + 1], m[d + 1..]);
    SumsConcat(m[..d], m[d..d + 1]);
  }

  lemma LiveOfNothing()
    ensures LivePayload([]) == 0
  {
  }

  /** After a free there are still no two holes side by side. */
  lemma ReleaseSeparates(blocks: seq<Block>, i: nat)
    requires NoAdjacentHoles(blocks) && i < |blocks| && !blocks[i].free
    ensures NoAdjacentHoles(Release(blocks, i))
  {
    hide Extent;
    var lo, hi := FirstMerged(blocks, i), LastMerged(blocks, i);
    var t := Release(blocks, i);
    var d := hi - lo;
    forall k, j | 0 <= k < |t| && j == k + 1 && j < |t|
      ensures !(t[k].free && t[j].free)
    {
      if j < lo {
        assert t[k] == blocks[k] && t[j] == blocks[j];
      } else if j == lo {
        assert t[k] == blocks[k];
        if lo < i {
          assert blocks[lo].free && !blocks[k].free;
        }
      } else if k == lo {
        assert t[j] == blocks[hi + 1];
        if hi > i {
          assert blocks[hi].free && !blocks[hi + 1].free;
        }
      } else {
        assert t[k] == blocks[k + d] && t[j] == blocks[j + d];
      }
    }
  }

  /** heap_free undoes heap_alloc: freeing the block just carved out of a hole gives back the
      very same blocks. */
  lemma FreeUndoesAlloc(blocks: seq<Block>, start: nat, i: nat, gap: nat, size: nat)
    requires Tiled(blocks, start) && NoAdjacentHoles(blocks) && i < |blocks| && Fits(blocks[i], gap, size)
    ensures Release(Allocate(blocks, i, gap, size), i + CarvedAt(gap)) == blocks
  {
    hide Tiled, Extent;
    var b := blocks[i];
    var m := Carve(b, gap, size);
    CarveFits(b, gap, size);
    var t := Allocate(blocks, i, gap, size);
    var k := i + CarvedAt(gap);
    assert t[k] == m[CarvedAt(gap)];
    assert FirstMerged(t, k) == i by {
      if gap > 0 {
        assert t[i] == m[0];
      } else if i > 0 {
        assert t[i - 1] == blocks[i - 1];
      }
    }
    assert LastMerged(t, k) == i + |m| - 1 by {
      if CarvedAt(gap) + 1 < |m| {
        assert t[k + 1] == m[CarvedAt(gap) + 1];
      } else if i + 1 < |blocks| {
        assert t[k + 1] == blocks[i + 1];
      }
    }
    assert t[i..i + |m|] == m;
    assert t[i] == m[0] && m[0].addr == b.addr;
    assert t[..i] == blocks[..i] && t[i + |m|..] == blocks[i + 1..];
    Around(blocks, i);
  }

  // ---------- Runs ----------

  datatype Operation = Alloc(hole: nat, gap: nat, size: nat) | Free(block: nat)

  ghost predicate Possible(blocks: seq<Block>, op: Operation) {
    match op
    case Alloc(i, gap, size) => i < |blocks| && Fits(blocks[i], gap, size)
    case Free(i) => i < |blocks| && !blocks[i].free
  }

  function Apply(blocks: seq<Block>, op: Operation): seq<Block>
    requires Possible(blocks, op)
  {
    match op
    case Alloc(i, gap, size) => Allocate(blocks, i, gap, size)
    case Free(i) => Release(blocks, i)
  }

  ghost predicate Reachable(from: seq<Block>, ops: seq<Operation>, to: seq<Block>)
    decreases |ops|
  {
    if ops == [] then from == to
    else Possible(from, ops[0]) && Reachable(Apply(from, ops[0]), ops[1..], to)
  }

  /** At every state reachable from a tiled heap the blocks tile the same memory, no two holes are
      side by side, and live payloads, hole payloads and block overhead make up the whole heap. */
  lemma {:induction false} ReachableHeaps(from: seq<Block>, start: nat, ops: seq<Operation>, to: seq<Block>)
    requires Tiled(from, start) && NoAdjacentHoles(from) && Reachable(from, ops, to)
    ensures Tiled(to, start) && Extent(to) == Extent(from) && NoAdjacentHoles(to)
    ensures LivePayload(to) + HolePayload(to) + MINIMUM_BLOCK_SIZE * |to| == Extent(from)
    decreases |ops|
  {
    hide Tiled, NoAdjacentHoles, Extent, LivePayload, HolePayload;
    if ops == [] {
      Accounting(to);
    } else {
      match ops[0] {
        case Alloc(i, gap, size) =>
          AllocateTiles(from, start, i, gap, size);
          AllocateSeparates(from, i, gap, size);
        case Free(i) =>
          ReleaseTiles(from, start, i);
          ReleaseSeparates(from, i);
      }
      ReachableHeaps(Apply(from, ops[0]), start, ops[1..], to);
    }
  }
}
