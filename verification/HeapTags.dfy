/** Block headers and footers in memory, and the index of holes (arch/i686/mem/heap.c). */
module HeapTags {
  import opened HeapModel
  import opened HeapProperties
  import opened SortedArrays

  const BLOCK_MAGIC: nat := 0x600D_B10C
  const BLOCK_FLAGS_ALLOCATED: nat := 0
  const BLOCK_FLAGS_AVAILABLE: nat := 1

  datatype Tag = Header(magic: nat, flags: nat, size: nat) | Footer(magic: nat, header: nat)

  type Memory = map<nat, Tag>

  function Flags(free: bool): nat {
    if free then BLOCK_FLAGS_AVAILABLE else BLOCK_FLAGS_ALLOCATED
  }

  /** The block's header, and its footer pointing back to the header. */
  ghost predicate TagsOf(mem: Memory, b: Block) {
    && b.addr in mem && mem[b.addr] == Header(BLOCK_MAGIC, Flags(b.free), b.size)
    && FooterAddress(b.addr, b.size) in mem
    && mem[FooterAddress(b.addr, b.size)] == Footer(BLOCK_MAGIC, b.addr)
  }

  ghost predicate Tagged(mem: Memory, blocks: seq<Block>) {
    forall i :: 0 <= i < |blocks| ==> TagsOf(mem, blocks[i])
  }

  function PlaceTags(mem: Memory, b: Block): Memory {
    mem[b.addr := Header(BLOCK_MAGIC, Flags(b.free), b.size)]
       [FooterAddress(b.addr, b.size) := Footer(BLOCK_MAGIC, b.addr)]
  }

  function PlaceAll(mem: Memory, bs: seq<Block>): Memory
    decreases |bs|
  {
    if bs == [] then mem else PlaceAll(PlaceTags(mem, bs[0]), bs[1..])
  }

  /** The two memories differ at most inside [lo, hi). */
  ghost predicate Agree(mem: Memory, mem': Memory, lo: nat, hi: nat) {
    forall x: nat :: x < lo || hi <= x ==> (x in mem <==> x in mem') && (x in mem ==> mem[x] == mem'[x])
  }

  lemma AgreeOutside(mem: Memory, mem': Memory, lo: nat, hi: nat, x: nat)
    requires Agree(mem, mem', lo, hi) && (x < lo || hi <= x) && x !in mem
    ensures x !in mem'
  {
  }

  lemma AgreeKeepsTags(mem: Memory, mem': Memory, lo: nat, hi: nat, b: Block)
    requires Agree(mem, mem', lo, hi) && TagsOf(mem, b)
    requires BlockEnd(b) <= lo || hi <= b.addr
    ensures TagsOf(mem', b)
  {
  }

  /** Laying tags for blocks end to end tags all of them and touches nothing else. */
  lemma {:induction false} PlaceAllTags(mem: Memory, bs: seq<Block>, start: nat)
    requires Tiled(bs, start)
    ensures Tagged(PlaceAll(mem, bs), bs)
    ensures Agree(mem, PlaceAll(mem, bs), start, start + Extent(bs))
    decreases |bs|
  {
    if bs == [] {
    } else {
      var mem1 := PlaceTags(mem, bs[0]);
      var mem2 := PlaceAll(mem1, bs[1..]);
      PlaceAllTags(mem1, bs[1..], BlockEnd(bs[0]));
      AgreeKeepsTags(mem1, mem2, BlockEnd(bs[0]), BlockEnd(bs[0]) + Extent(bs[1..]), bs[0]);
      forall i | 0 <= i < |bs|
        ensures TagsOf(mem2, bs[i])
      {
        if i > 0 {
          assert bs[i] == bs[1..][i - 1];
        }
      }
    }
  }

  /** Exchanging a stretch of blocks and writing only inside its extent keeps every tag. */
  lemma ReplaceKeepsTags(mem: Memory, mem': Memory, a: seq<Block>, m: seq<Block>, b: seq<Block>, m': seq<Block>, start: nat)
    requires Tiled(a + m + b, start) && Tagged(mem, a + m + b) && Tagged(mem', m')
    requires Agree(mem, mem', start + Extent(a), start + Extent(a) + Extent(m))
    ensures Tagged(mem', a + m' + b)
  {
    hide Tiled, Extent, Agree, TagsOf;
    var s, t := a + m + b, a + m' + b;
    var lo := start + Extent(a);
    var hi := lo + Extent(m);
    forall i | 0 <= i < |t|
      ensures TagsOf(mem', t[i])
    {
      if i < |a| {
        assert t[i] == s[i];
        assert a + (m + b) == s;
        BeforeStretch(a, m + b, start, i);
        AgreeKeepsTags(mem, mem', lo, hi, t[i]);
      } else if i < |a| + |m'| {
        assert t[i] == m'[i - |a|];
      } else {
        var j := i - |m'| + |m|;
        assert t[i] == s[j];
        AfterStretch(a, m, b, start, j);
        AgreeKeepsTags(mem, mem', lo, hi, t[i]);
      }
    }
  }

  lemma BeforeStretch(a: seq<Block>, b: seq<Block>, start: nat, i: nat)
    requires Tiled(a + b, start) && i < |a|
    ensures BlockEnd(a[i]) <= start + Extent(a)
  {
    hide Tiled, Extent;
    TiledConcat(a, b, start);
    BlockPosition(a, start, i);
  }

  lemma AfterStretch(a: seq<Block>, m: seq<Block>, b: seq<Block>, start: nat, j: nat)
    requires Tiled(a + m + b, start) && |a + m| <= j < |a + m + b|
    ensures start + Extent(a) + Extent(m) <= (a + m + b)[j].addr
  {
    hide Tiled, Extent;
    TiledConcat(a + m, b, start);
    ExtentConcat(a, m);
    BlockPosition(b, start + Extent(a + m), j - |a + m|);
  }

  // ---------- The index of holes ----------

  function SizeAt(mem: Memory, addr: nat): nat {
    if addr in mem && mem[addr].Header? then mem[addr].size else 0
  }

  /** blockheader_ascending_predicate. */
  function BySize(mem: Memory): (nat, nat) -> bool {
    (a: nat, b: nat) => SizeAt(mem, a) < SizeAt(mem, b)
  }

  lemma SortedAfterPlacing(list: seq<nat>, mem: Memory, b: Block)
    requires Sorted(list, BySize(mem)) && Clear(list, b.addr, BlockEnd(b))
    ensures Sorted(list, BySize(PlaceTags(mem, b)))
  {
    SortedAgain(list, mem, PlaceTags(mem, b));
  }

  lemma BySizeIsOrder(mem: Memory)
    ensures StrictWeakOrder(BySize(mem))
  {
  }

  /** The list keeps its order while the sizes of its members stay as they are. */
  lemma SortedAgain(list: seq<nat>, mem: Memory, mem': Memory)
    requires Sorted(list, BySize(mem))
    requires forall x :: x in list ==> SizeAt(mem, x) == SizeAt(mem', x)
    ensures Sorted(list, BySize(mem'))
  {
    forall i, j | 0 <= i < j < |list|
      ensures !BySize(mem')(list[j], list[i])
    {
      assert !BySize(mem)(list[j], list[i]);
      assert list[i] in list && list[j] in list;
    }
  }

  /** No listed hole has its header in [lo, hi). */
  ghost predicate Clear(list: seq<nat>, lo: nat, hi: nat) {
    forall x :: x in list ==> x < lo || hi <= x
  }

  /** The index lists exactly the given addresses, in order of size. */
  ghost predicate Indexes(list: seq<nat>, holes: seq<nat>, mem: Memory) {
    multiset(list) == multiset(holes) && Sorted(list, BySize(mem))
  }

  lemma {:induction false} HoleIsBlock(blocks: seq<Block>, x: nat) returns (i: nat)
    requires x in Holes(blocks)
    ensures i < |blocks| && blocks[i].free && blocks[i].addr == x
  {
    if blocks[0].free && blocks[0].addr == x {
      i := 0;
    } else {
      var k := HoleIsBlock(blocks[1..], x);
      i := k + 1;
    }
  }

  lemma {:induction false} BlockIsHole(blocks: seq<Block>, i: nat)
    requires i < |blocks| && blocks[i].free
    ensures blocks[i].addr in Holes(blocks)
  {
    if i == 0 {
    } else {
      BlockIsHole(blocks[1..], i - 1);
    }
  }

  /** Holes outside a stretch keep out of its extent. */
  lemma HoleOutside(a: seq<Block>, m: seq<Block>, b: seq<Block>, start: nat, x: nat)
    requires Tiled(a + m + b, start) && (x in Holes(a) || x in Holes(b))
    ensures x < start + Extent(a) || start + Extent(a) + Extent(m) <= x
  {
    hide Tiled, Extent;
    if x in Holes(a) {
      var i := HoleIsBlock(a, x);
      assert a + (m + b) == a + m + b;
      BeforeStretch(a, m + b, start, i);
    } else {
      var i := HoleIsBlock(b, x);
      AfterStretch(a, m, b, start, |a + m| + i);
    }
  }

  /** What is left of the index when one hole is taken out, seen from the blocks around it. */
  lemma HolesAround(blocks: seq<Block>, i: nat)
    requires i < |blocks| && blocks[i].free
    ensures Holes(blocks) == Holes(blocks[..i]) + [blocks[i].addr] + Holes(blocks[i + 1..])
  {
    hide Holes;
    OneBlock(blocks[i]);
    assert blocks == blocks[..i] + [blocks[i]] + blocks[i + 1..];
    SumsConcat(blocks[..i] + [blocks[i]], blocks[i + 1..]);
    SumsConcat(blocks[..i], [blocks[i]]);
  }

  lemma HolesReplaced(a: seq<Block>, m: seq<Block>, b: seq<Block>)
    ensures Holes(a + m + b) == Holes(a) + Holes(m) + Holes(b)
  {
    hide Holes;
    SumsConcat(a + m, b);
    SumsConcat(a, m);
  }

  function Front(b: Block, gap: nat): seq<Block> {
    if gap > MINIMUM_BLOCK_SIZE then [Block(b.addr, gap - MINIMUM_BLOCK_SIZE, true)] else []
  }

  function Middle(b: Block, gap: nat, size: nat): Block
    requires b.size >= gap + size
  {
    var rest := b.size - gap - size;
    Block(b.addr + gap, if rest <= MINIMUM_BLOCK_SIZE then size + rest else size, false)
  }

  function Back(b: Block, gap: nat, size: nat): seq<Block>
    requires b.size >= gap + size
  {
    var rest := b.size - gap - size;
    if rest > MINIMUM_BLOCK_SIZE
    then [Block(b.addr + gap + TotalBlockSize(size), rest - MINIMUM_BLOCK_SIZE, true)] else []
  }

  /** The pieces of a hole, front to back: their tags and the holes among them. */
  lemma CarveParts(mem: Memory, b: Block, gap: nat, size: nat)
    requires b.size >= gap + size && (gap == 0 || gap > MINIMUM_BLOCK_SIZE)
    ensures PlaceAll(mem, Carve(b, gap, size))
         == PlaceAll(PlaceTags(PlaceAll(mem, Front(b, gap)), Middle(b, gap, size)), Back(b, gap, size))
    ensures Holes(Carve(b, gap, size)) == Holes(Front(b, gap)) + Holes(Back(b, gap, size))
  {
    hide PlaceAll, PlaceTags, Holes;
    var f, m, k := Front(b, gap), [Middle(b, gap, size)], Back(b, gap, size);
    assert Carve(b, gap, size) == f + m + k;
    PlaceAllConcat(mem, f + m, k);
    PlaceAllConcat(mem, f, m);
    PlaceAllStep(PlaceAll(mem, f), m);
    PlaceAllStep(PlaceTags(PlaceAll(mem, f), m[0]), []);
    HolesReplaced(f, m, k);
    OneBlock(m[0]);
  }

  lemma OnePlaced(mem: Memory, bs: seq<Block>)
    requires |bs| <= 1
    ensures PlaceAll(mem, bs) == if bs == [] then mem else PlaceTags(mem, bs[0])
    ensures Holes(bs) == if bs != [] && bs[0].free then [bs[0].addr] else []
  {
    hide PlaceTags;
    if |bs| == 1 {
      PlaceAllStep(mem, bs);
      PlaceAllStep(PlaceTags(mem, bs[0]), []);
      assert bs == [bs[0]];
      OneBlock(bs[0]);
    }
  }

  lemma {:induction false} PlaceAllConcat(mem: Memory, a: seq<Block>, b: seq<Block>)
    ensures PlaceAll(mem, a + b) == PlaceAll(PlaceAll(mem, a), b)
    decreases |a|
  {
    if a == [] {
      assert a + b == b;
    } else {
      assert (a + b)[1..] == a[1..] + b;
      PlaceAllConcat(PlaceTags(mem, a[0]), a[1..], b);
    }
  }

  lemma {:induction false} PlaceAllStep(mem: Memory, bs: seq<Block>)
    ensures PlaceAll(mem, bs) == if bs == [] then mem else PlaceAll(PlaceTags(mem, bs[0]), bs[1..])
  {
  }

  /** Laying the pieces' tags over a hole keeps every block tagged; the memory just outside the
      heap is not touched, and the index grows by the pieces that are holes. */
  lemma AllocateKeeps(mem': Memory, mem: Memory, blocks: seq<Block>, start: nat, i: nat, gap: nat, size: nat)
    requires Tiled(blocks, start) && Tagged(mem, blocks) && i < |blocks| && Fits(blocks[i], gap, size)
    requires mem' == PlaceAll(mem, Carve(blocks[i], gap, size))
    ensures Tagged(mem', Allocate(blocks, i, gap, size))
    ensures Agree(mem, mem', start, start + Extent(blocks))
    ensures Holes(Allocate(blocks, i, gap, size))
         == Holes(blocks[..i]) + Holes(Carve(blocks[i], gap, size)) + Holes(blocks[i + 1..])
    ensures SizeAt(mem', blocks[i].addr + gap) == Carve(blocks[i], gap, size)[CarvedAt(gap)].size
  {
    hide Tiled, Extent, Carve, PlaceAll, Holes;
    var b := blocks[i];
    var bs := Carve(b, gap, size);
    CarveFits(b, gap, size);
    BlockPosition(blocks, start, i);
    PlaceAllTags(mem, bs, b.addr);
    OneBlock(b);
    Around(blocks, i);
    ReplaceKeepsTags(mem, mem', blocks[..i], [b], blocks[i + 1..], bs, start);
    HolesReplaced(blocks[..i], bs, blocks[i + 1..]);
    assert TagsOf(mem', bs[CarvedAt(gap)]);
  }

  /** Taking one address out of the index. */
  lemma TakeFromIndex(list: seq<nat>, index: nat, a: seq<nat>, x: nat, b: seq<nat>, mem: Memory)
    requires Indexes(list, a + [x] + b, mem) && index < |list| && list[index] == x
    ensures Indexes(Delete(list, index), a + b, mem)
  {
    hide Sorted;
    DeleteKeepsSorted(list, index, BySize(mem));
    assert multiset(a + [x] + b) == multiset(a + b) + multiset{x};
  }

  lemma IndexedOutside(list: seq<nat>, a: seq<Block>, m: seq<Block>, b: seq<Block>, start: nat, mem: Memory)
    requires Tiled(a + m + b, start) && Indexes(list, Holes(a) + Holes(b), mem)
    ensures Clear(list, start + Extent(a), start + Extent(a) + Extent(m))
  {
    hide Tiled, Extent, Holes, Sorted;
    forall x | x in list
      ensures x < start + Extent(a) || start + Extent(a) + Extent(m) <= x
    {
      assert x in multiset(list);
      assert x in multiset(Holes(a) + Holes(b));
      HoleOutside(a, m, b, start, x);
    }
  }

  /** The blocks tile the memory from start to end and carry their tags; just outside it there
      are no tags. */
  ghost predicate LaidAt(mem: Memory, blocks: seq<Block>, start: nat, end: nat) {
    && Tiled(blocks, start) && start + Extent(blocks) == end
    && Tagged(mem, blocks)
    && FOOTER_SIZE <= start && start - FOOTER_SIZE !in mem && end !in mem
  }

  lemma BlockInHeap(mem: Memory, blocks: seq<Block>, start: nat, end: nat, i: nat)
    requires LaidAt(mem, blocks, start, end) && i < |blocks|
    ensures start <= blocks[i].addr && BlockEnd(blocks[i]) <= end
    ensures TagsOf(mem, blocks[i]) && SizeAt(mem, blocks[i].addr) == blocks[i].size
  {
    BlockPosition(blocks, start, i);
  }

  lemma AllocateSettles(mem': Memory, mem: Memory, blocks: seq<Block>, start: nat, end: nat, i: nat, gap: nat, size: nat)
    requires LaidAt(mem, blocks, start, end) && i < |blocks| && Fits(blocks[i], gap, size)
    requires mem' == PlaceAll(mem, Carve(blocks[i], gap, size))
    ensures LaidAt(mem', Allocate(blocks, i, gap, size), start, end)
    ensures Holes(Allocate(blocks, i, gap, size))
         == Holes(blocks[..i]) + Holes(Carve(blocks[i], gap, size)) + Holes(blocks[i + 1..])
    ensures LivePayload(Allocate(blocks, i, gap, size)) == LivePayload(blocks) + SizeAt(mem', blocks[i].addr + gap)
  {
    hide Tiled, Extent, Tagged, Carve, PlaceAll, Holes, LivePayload, Agree;
    AllocateKeeps(mem', mem, blocks, start, i, gap, size);
    AllocateTiles(blocks, start, i, gap, size);
    AgreeOutside(mem, mem', start, end, end);
    AgreeOutside(mem, mem', start, end, start - FOOTER_SIZE);
  }

  // ---------- Freeing ----------

  /** The heap while block k, a hole, is on its way into the index. */
  ghost predicate Detached(mem: Memory, blocks: seq<Block>, start: nat, end: nat, list: seq<nat>, k: nat) {
    && LaidAt(mem, blocks, start, end) && k < |blocks| && blocks[k].free
    && Indexes(list, Holes(blocks[..k]) + Holes(blocks[k + 1..]), mem)
  }

  /** Turning a live block into a hole detaches it. */
  lemma MarkDetaches(mem: Memory, blocks: seq<Block>, start: nat, end: nat, list: seq<nat>, i: nat)
    requires LaidAt(mem, blocks, start, end) && i < |blocks| && !blocks[i].free
    requires Indexes(list, Holes(blocks), mem)
    ensures blocks[i].addr in mem && mem[blocks[i].addr].Header?
    ensures Detached(mem[blocks[i].addr := mem[blocks[i].addr].(flags := BLOCK_FLAGS_AVAILABLE)], MarkFree(blocks, i), start, end, list, i)
  {
    hide Tiled, Extent, Holes;
    var b := blocks[i];
    var c := b.(free := true);
    var mem' := mem[b.addr := mem[b.addr].(flags := BLOCK_FLAGS_AVAILABLE)];
    var marked := MarkFree(blocks, i);
    BlockInHeap(mem, blocks, start, end, i);
    Around(blocks, i);
    OneBlock(b);
    OneBlock(c);
    BlockPosition(blocks, start, i);
    TiledReplace(blocks[..i], [b], blocks[i + 1..], [c], start);
    assert marked == blocks[..i] + [c] + blocks[i + 1..];
    ReplaceKeepsTags(mem, mem', blocks[..i], [b], blocks[i + 1..], [c], start);
    HolesReplaced(blocks[..i], [b], blocks[i + 1..]);
    SortedAgain(list, mem, mem');
    assert marked[..i] == blocks[..i] && marked[i + 1..] == blocks[i + 1..];
  }

  /** Two holes side by side become one when the second leaves the index and the tags say so. */
  lemma MergeTiles(mem: Memory, mem': Memory, blocks: seq<Block>, start: nat, end: nat, k: nat)
    requires LaidAt(mem, blocks, start, end) && k + 1 < |blocks|
    requires TagsOf(mem', MergePair(blocks, k)[k]) && Agree(mem, mem', blocks[k].addr, BlockEnd(blocks[k + 1]))
    ensures LaidAt(mem', MergePair(blocks, k), start, end)
  {
    hide Tiled, Extent;
    var x, y, h := blocks[k], blocks[k + 1], MergePair(blocks, k)[k];
    var a, b := blocks[..k], blocks[k + 2..];
    assert blocks == a + [x, y] + b;
    assert MergePair(blocks, k) == a + [h] + b;
    BlockPosition(blocks, start, k);
    BlocksInOrder(blocks, start, k, k + 1);
    OneBlock(x);
    OneBlock(h);
    Pair([x], y, x.addr);
    assert [x] + [y] == [x, y];
    TiledReplace(a, [x, y], b, [h], start);
    ReplaceKeepsTags(mem, mem', a, [x, y], b, [h], start);
    BlockPosition(blocks, start, k + 1);
  }

  /** What unify_left finds just in front of block k: the footer of the block before it, pointing
      to that block's header; in front of the first block there is no footer. */
  lemma FooterInFront(mem: Memory, blocks: seq<Block>, start: nat, end: nat, k: nat)
    requires LaidAt(mem, blocks, start, end) && k < |blocks|
    ensures blocks[k].addr >= FOOTER_SIZE
    ensures k == 0 ==> blocks[k].addr - FOOTER_SIZE !in mem
    ensures k > 0 ==> TagsOf(mem, blocks[k - 1])
    ensures k > 0 ==> blocks[k].addr - FOOTER_SIZE in mem && mem[blocks[k].addr - FOOTER_SIZE] == Footer(BLOCK_MAGIC, blocks[k - 1].addr)
  {
    hide Tiled, Extent;
    BlockPosition(blocks, start, k);
    if k > 0 {
      BlocksInOrder(blocks, start, k - 1, k);
    } else {
      assert blocks[..0] == [];
      EmptyExtent();
    }
  }

  lemma EmptyExtent()
    ensures Extent([]) == 0
  {
  }

  lemma HeaderBehind(mem: Memory, blocks: seq<Block>, start: nat, end: nat, k: nat)
    requires LaidAt(mem, blocks, start, end) && k < |blocks|
    ensures k + 1 == |blocks| ==> BlockEnd(blocks[k]) !in mem
    ensures k + 1 < |blocks| ==> TagsOf(mem, blocks[k + 1]) && BlockEnd(blocks[k]) == blocks[k + 1].addr
  {
    hide Tiled, Extent;
    if k + 1 < |blocks| {
      BlocksInOrder(blocks, start, k, k + 1);
    } else {
      BlockPosition(blocks, start, k);
      assert blocks[..k + 1] == blocks;
    }
  }

  ghost predicate Deleted(list: seq<nat>, list': seq<nat>, x: nat) {
    exists i :: 0 <= i < |list| && list[i] == x && list' == Delete(list, i)
  }

  lemma DeletedFromIndex(list: seq<nat>, list': seq<nat>, a: seq<nat>, x: nat, b: seq<nat>, mem: Memory)
    requires Indexes(list, a + [x] + b, mem) && Deleted(list, list', x)
    ensures Indexes(list', a + b, mem)
  {
    var i :| 0 <= i < |list| && list[i] == x && list' == Delete(list, i);
    TakeFromIndex(list, i, a, x, b, mem);
  }

  lemma ListedInIndex(list: seq<nat>, a: seq<nat>, x: nat, b: seq<nat>, mem: Memory)
    requires Indexes(list, a + [x] + b, mem)
    ensures x in list
  {
    hide Sorted;
    assert (a + [x] + b)[|a|] == x;
    assert x in multiset(a + [x] + b);
    assert x in multiset(list);
  }

  /** The holes other than blocks k and k + 1. */
  function HolesBesides(blocks: seq<Block>, k: nat): seq<nat>
    requires k + 1 < |blocks|
  {
    Holes(blocks[..k]) + Holes(blocks[k + 2..])
  }

  /** The index of a heap with block k + 1 detached still lists block k, and the other way round. */
  lemma NeighbourListed(blocks: seq<Block>, k: nat)
    requires k + 1 < |blocks| && blocks[k].free && blocks[k + 1].free
    ensures Holes(blocks[..k + 1]) + Holes(blocks[k + 2..])
         == Holes(blocks[..k]) + [blocks[k].addr] + Holes(blocks[k + 2..])
    ensures Holes(blocks[..k]) + Holes(blocks[k + 1..])
         == Holes(blocks[..k]) + [blocks[k + 1].addr] + Holes(blocks[k + 2..])
  {
    hide Holes;
    OneBlock(blocks[k]);
    OneBlock(blocks[k + 1]);
    assert blocks[..k + 1] == blocks[..k] + [blocks[k]];
    assert blocks[k + 1..] == [blocks[k + 1]] + blocks[k + 2..];
    SumsConcat(blocks[..k], [blocks[k]]);
    SumsConcat([blocks[k + 1]], blocks[k + 2..]);
  }

  lemma PairSettles(mem: Memory, mem': Memory, blocks: seq<Block>, start: nat, end: nat, list: seq<nat>, k: nat)
    requires LaidAt(mem, blocks, start, end) && k + 1 < |blocks|
    requires Indexes(list, HolesBesides(blocks, k), mem)
    requires TagsOf(mem', MergePair(blocks, k)[k]) && Agree(mem, mem', blocks[k].addr, BlockEnd(blocks[k + 1]))
    ensures Detached(mem', MergePair(blocks, k), start, end, list, k)
  {
    hide Tiled, Extent, Holes, Tagged, TagsOf;
    MergeTiles(mem, mem', blocks, start, end, k);
    var a, b := blocks[..k], blocks[k + 2..];
    assert blocks == a + [blocks[k], blocks[k + 1]] + b;
    BlockPosition(blocks, start, k);
    BlocksInOrder(blocks, start, k, k + 1);
    PairExtent(blocks[k], blocks[k + 1]);
    IndexedOutside(list, a, [blocks[k], blocks[k + 1]], b, start, mem);
    forall x | x in list
      ensures SizeAt(mem, x) == SizeAt(mem', x)
    {
      assert x < blocks[k].addr || BlockEnd(blocks[k + 1]) <= x;
    }
    SortedAgain(list, mem, mem');
    assert MergePair(blocks, k)[..k] == a && MergePair(blocks, k)[k + 1..] == b;
  }

  lemma PairExtent(x: Block, y: Block)
    ensures Extent([x, y]) == TotalBlockSize(x.size) + TotalBlockSize(y.size)
  {
    OneBlock(x);
    OneBlock(y);
    ExtentConcat([x], [y]);
    assert [x] + [y] == [x, y];
  }

  /** The memory after unify_left or unify_right has merged blocks k and k + 1. */
  function MergedMemory(mem: Memory, x: Block, y: Block): Memory
    requires x.addr in mem && mem[x.addr].Header? && FooterAddress(y.addr, y.size) in mem
  {
    mem[x.addr := mem[x.addr].(size := x.size + TotalBlockSize(y.size))]
       [FooterAddress(y.addr, y.size) := Footer(BLOCK_MAGIC, x.addr)]
  }

  lemma MergedMemoryTags(mem: Memory, blocks: seq<Block>, k: nat)
    requires k + 1 < |blocks| && blocks[k].free
    requires TagsOf(mem, blocks[k]) && TagsOf(mem, blocks[k + 1]) && BlockEnd(blocks[k]) == blocks[k + 1].addr
    ensures TagsOf(MergedMemory(mem, blocks[k], blocks[k + 1]), MergePair(blocks, k)[k])
    ensures Agree(mem, MergedMemory(mem, blocks[k], blocks[k + 1]), blocks[k].addr, BlockEnd(blocks[k + 1]))
  {
  }
}
