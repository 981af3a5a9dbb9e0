/** The heap as a sequence of blocks laid end to end, and what allocation and freeing do to it
    (arch/i686/mem/heap.c). */
module HeapModel {
  import opened Alignment

  const HEADER_SIZE: nat := 16
  const FOOTER_SIZE: nat := 16
  const MINIMUM_BLOCK_SIZE: nat := 32

  /** A block: header, `size` bytes of usable memory, footer. */
  datatype Block = Block(addr: nat, size: nat, free: bool)

  function TotalBlockSize(allocSize: nat): nat {
    MINIMUM_BLOCK_SIZE + allocSize
  }

  function UsableAddress(addr: nat): nat {
    addr + HEADER_SIZE
  }

  function FooterAddress(addr: nat, size: nat): nat {
    UsableAddress(addr) + size
  }

  function FooterEnd(footer: nat): nat {
    footer + FOOTER_SIZE
  }

  function BlockEnd(b: Block): nat {
    FooterEnd(FooterAddress(b.addr, b.size))
  }

  // ---------- Tiling ----------

  function Extent(blocks: seq<Block>): nat {
    if blocks == [] then 0 else TotalBlockSize(blocks[0].size) + Extent(blocks[1..])
  }

  /** The blocks cover the addresses from `start` to `start + Extent(blocks)` without a gap. */
  ghost predicate Tiled(blocks: seq<Block>, start: nat) {
    blocks != [] ==> blocks[0].addr == start && Tiled(blocks[1..], BlockEnd(blocks[0]))
  }

  lemma {:induction false} ExtentConcat(a: seq<Block>, b: seq<Block>)
    ensures Extent(a + b) == Extent(a) + Extent(b)
  {
    if a == [] {
      assert a + b == b;
    } else {
      assert (a + b)[1..] == a[1..] + b;
      ExtentConcat(a[1..], b);
    }
  }

  lemma {:induction false} TiledConcat(a: seq<Block>, b: seq<Block>, start: nat)
    ensures Tiled(a + b, start) <==> Tiled(a, start) && Tiled(b, start + Extent(a))
  {
    if a == [] {
      assert a + b == b;
    } else {
      assert (a + b)[1..] == a[1..] + b;
      TiledConcat(a[1..], b, BlockEnd(a[0]));
    }
  }

  /** A stretch of blocks can be exchanged for another that covers the same addresses. */
  lemma TiledReplace(a: seq<Block>, m: seq<Block>, b: seq<Block>, m': seq<Block>, start: nat)
    requires Tiled(a + m + b, start)
    requires Extent(m') == Extent(m) && (Tiled(m, start + Extent(a)) ==> Tiled(m', start + Extent(a)))
    ensures Tiled(a + m' + b, start) && Extent(a + m' + b) == Extent(a + m + b)
  {
    hide Tiled, Extent;
    TiledConcat(a + m, b, start);
    TiledConcat(a, m, start);
    TiledConcat(a + m', b, start);
    TiledConcat(a, m', start);
    ExtentConcat(a + m, b);
    ExtentConcat(a, m);
    ExtentConcat(a + m', b);
    ExtentConcat(a, m');
  }

  lemma {:induction false} BlockPosition(blocks: seq<Block>, start: nat, i: nat)
    requires Tiled(blocks, start) && i < |blocks|
    ensures blocks[i].addr == start + Extent(blocks[..i])
    ensures BlockEnd(blocks[i]) == start + Extent(blocks[..i + 1]) <= start + Extent(blocks)
  {
    assert blocks == blocks[..i] + blocks[i..];
    TiledConcat(blocks[..i], blocks[i..], start);
    assert blocks[..i + 1] == blocks[..i] + [blocks[i]];
    ExtentConcat(blocks[..i], [blocks[i]]);
    assert Extent([blocks[i]]) == TotalBlockSize(blocks[i].size) + Extent([]);
    assert blocks == blocks[..i + 1] + blocks[i + 1..];
    ExtentConcat(blocks[..i + 1], blocks[i + 1..]);
  }

  /** Blocks are disjoint and in address order. */
  lemma BlocksInOrder(blocks: seq<Block>, start: nat, i: nat, j: nat)
    requires Tiled(blocks, start) && i < j < |blocks|
    ensures start <= BlockEnd(blocks[i]) <= blocks[j].addr
    ensures j == i + 1 ==> BlockEnd(blocks[i]) == blocks[j].addr
  {
    BlockPosition(blocks, start, i);
    BlockPosition(blocks, start, j);
    assert blocks[..j] == blocks[..i + 1] + blocks[i + 1..j];
    ExtentConcat(blocks[..i + 1], blocks[i + 1..j]);
    if j == i + 1 {
      assert blocks[i + 1..j] == [];
    }
  }

  // ---------- Holes and accounting ----------

  /** The addresses of the holes. */
  function Holes(blocks: seq<Block>): seq<nat> {
    if blocks == [] then []
    else if blocks[0].free then [blocks[0].addr] + Holes(blocks[1..])
    else Holes(blocks[1..])
  }

  function LivePayload(blocks: seq<Block>): nat {
    if blocks == [] then 0 else (if blocks[0].free then 0 else blocks[0].size) + LivePayload(blocks[1..])
  }

  function HolePayload(blocks: seq<Block>): nat {
    if blocks == [] then 0 else (if blocks[0].free then blocks[0].size else 0) + HolePayload(blocks[1..])
  }

  lemma {:induction false} SumsConcat(a: seq<Block>, b: seq<Block>)
    ensures LivePayload(a + b) == LivePayload(a) + LivePayload(b)
    ensures Holes(a + b) == Holes(a) + Holes(b)
  {
    if a == [] {
      assert a + b == b;
    } else {
      assert (a + b)[1..] == a[1..] + b;
      SumsConcat(a[1..], b);
    }
  }

  /** Every byte is accounted for: live memory, free memory and one minimum block of overhead per
      block make up the heap. */
  lemma {:induction false} Accounting(blocks: seq<Block>)
    ensures LivePayload(blocks) + HolePayload(blocks) + MINIMUM_BLOCK_SIZE * |blocks| == Extent(blocks)
  {
    if blocks == [] {
    } else {
      Accounting(blocks[1..]);
    }
  }

  ghost predicate NoAdjacentHoles(blocks: seq<Block>) {
    forall i, j :: 0 <= i < |blocks| && j == i + 1 && j < |blocks| ==> !(blocks[i].free && blocks[j].free)
  }

  // ---------- Allocation ----------

  /** How far into a hole at `addr` the header of a page-aligned block goes: the usable memory
      then starts on the next page boundary, or one page later if the gap could not hold a hole. */
  function Gap(addr: nat, pageAlign: bool): nat {
    if pageAlign && !IsAligned(UsableAddress(addr), PAGE_SIZE) then
      var offset := PAGE_SIZE - UsableAddress(addr) % PAGE_SIZE;
      if offset <= MINIMUM_BLOCK_SIZE then offset + PAGE_SIZE else offset
    else 0
  }

  /** A gap that puts the usable memory of the block behind it on a page boundary, and can itself be a
      hole with memory. */
  predicate AlignedGap(addr: nat, gap: nat) {
    gap > MINIMUM_BLOCK_SIZE && (UsableAddress(addr) + gap) % PAGE_SIZE == 0
  }

  /** Whether a hole has room for `size` bytes: anywhere, or behind a gap that aligns. */
  ghost predicate Room(addr: nat, holeSize: nat, size: nat, pageAlign: bool) {
    if pageAlign then exists gap: nat :: AlignedGap(addr, gap) && holeSize >= gap + size
    else holeSize >= size
  }

  /** The gap in front of a block: none, or the least that aligns. */
  ghost predicate LeastGap(addr: nat, pageAlign: bool, gap: nat) {
    if pageAlign then AlignedGap(addr, gap) && forall other: nat :: AlignedGap(addr, other) ==> gap <= other
    else gap == 0
  }

  /** How the search finds out. */
  predicate BigEnough(addr: nat, holeSize: nat, size: nat, pageAlign: bool) {
    holeSize >= Gap(addr, pageAlign) + size
  }

  /** What a hole turns into when `size` bytes are allocated in it: a hole in front if there is a
      gap, the block, and a hole behind if the rest is more than a minimum block. */
  function Carve(b: Block, gap: nat, size: nat): (bs: seq<Block>)
    requires gap == 0 || gap > MINIMUM_BLOCK_SIZE
    requires b.size >= gap + size
    ensures |bs| > 0
  {
    var front := if gap > 0 then [Block(b.addr, gap - MINIMUM_BLOCK_SIZE, true)] else [];
    var rest := b.size - gap - size;
    front + if rest <= MINIMUM_BLOCK_SIZE then [Block(b.addr + gap, size + rest, false)]
            else [Block(b.addr + gap, size, false),
                  Block(b.addr + gap + TotalBlockSize(size), rest - MINIMUM_BLOCK_SIZE, true)]
  }

  /** The position of the allocated block among the pieces. */
  function CarvedAt(gap: nat): nat {
    if gap > 0 then 1 else 0
  }

  lemma GapAligns(addr: nat, pageAlign: bool)
    requires PAGE_SIZE <= addr && addr + HEADER_SIZE < WORD_LIMIT
    ensures Gap(addr, pageAlign) == 0 || MINIMUM_BLOCK_SIZE < Gap(addr, pageAlign) <= PAGE_SIZE + MINIMUM_BLOCK_SIZE
    ensures Gap(addr, pageAlign) == 0 <==> !pageAlign
    ensures pageAlign ==> UsableAddress(addr + Gap(addr, pageAlign)) % PAGE_SIZE == 0
  {
    UnitsArePowers();
    hide PowerOfTwo, IsAligned;
    NeverAligned(UsableAddress(addr), PAGE_SIZE);
    NextPage(UsableAddress(addr));
  }

  /** The search accepts exactly the holes that have room: of all gaps that align it tries the least. */
  lemma BigEnoughIsRoom(addr: nat, holeSize: nat, size: nat, pageAlign: bool)
    requires PAGE_SIZE <= addr && addr + HEADER_SIZE < WORD_LIMIT
    ensures BigEnough(addr, holeSize, size, pageAlign) <==> Room(addr, holeSize, size, pageAlign)
  {
    GapIsLeast(addr, pageAlign);
    hide Gap, AlignedGap;
  }

  lemma GapIsLeast(addr: nat, pageAlign: bool)
    requires PAGE_SIZE <= addr && addr + HEADER_SIZE < WORD_LIMIT
    ensures LeastGap(addr, pageAlign, Gap(addr, pageAlign))
  {
    GapAligns(addr, pageAlign);
    if pageAlign {
      hide Gap;
      assert AlignedGap(addr, Gap(addr, true));
      forall gap: nat | AlignedGap(addr, gap)
        ensures Gap(addr, true) <= gap
      {
        NoSmallerGap(addr, Gap(addr, true), gap);
      }
    }
  }

  /** There is no smaller gap that aligns. */
  lemma NoSmallerGap(addr: nat, gap: nat, other: nat)
    requires AlignedGap(addr, gap) && AlignedGap(addr, other) && gap <= PAGE_SIZE + MINIMUM_BLOCK_SIZE
    ensures gap <= other
  {
  }

  lemma NextPage(x: nat)
    ensures (x + PAGE_SIZE - x % PAGE_SIZE) % PAGE_SIZE == 0
    ensures (x + 2 * PAGE_SIZE - x % PAGE_SIZE) % PAGE_SIZE == 0
  {
  }

  /** The pieces cover exactly the hole; the block has at least `size` bytes; no two pieces side
      by side are holes. */
  lemma CarveFits(b: Block, gap: nat, size: nat)
    requires b.free && b.size >= gap + size && (gap == 0 || gap > MINIMUM_BLOCK_SIZE)
    ensures Extent(Carve(b, gap, size)) == TotalBlockSize(b.size)
    ensures Tiled(Carve(b, gap, size), b.addr)
    ensures NoAdjacentHoles(Carve(b, gap, size))
    ensures CarvedAt(gap) < |Carve(b, gap, size)|
    ensures var c := Carve(b, gap, size)[CarvedAt(gap)];
            !c.free && c.addr == b.addr + gap && size <= c.size <= size + MINIMUM_BLOCK_SIZE
    ensures forall k :: 0 <= k < |Carve(b, gap, size)| && k != CarvedAt(gap) ==>
              Carve(b, gap, size)[k].free && Carve(b, gap, size)[k].size > 0
    ensures Carve(b, gap, size)[CarvedAt(gap)].size > size ==> CarvedAt(gap) == |Carve(b, gap, size)| - 1
    ensures LivePayload(Carve(b, gap, size)) == Carve(b, gap, size)[CarvedAt(gap)].size
  {
    hide Extent, Tiled, LivePayload;
    var bs := Carve(b, gap, size);
    OneBlock(bs[0]);
    if |bs| == 1 {
      assert bs == [bs[0]];
    } else {
      Pair([bs[0]], bs[1], b.addr);
      if |bs| == 2 {
        assert bs == [bs[0]] + [bs[1]];
      } else {
        Pair([bs[0]] + [bs[1]], bs[2], b.addr);
        assert bs == [bs[0]] + [bs[1]] + [bs[2]];
      }
    }
  }

  lemma OneBlock(x: Block)
    ensures Extent([x]) == TotalBlockSize(x.size)
    ensures Tiled([x], x.addr)
    ensures LivePayload([x]) == if x.free then 0 else x.size
    ensures Holes([x]) == if x.free then [x.addr] else []
  {
    assert Tiled([], BlockEnd(x));
  }

  lemma Pair(a: seq<Block>, x: Block, start: nat)
    requires Tiled(a, start) && x.addr == start + Extent(a)
    ensures Extent(a + [x]) == Extent(a) + TotalBlockSize(x.size)
    ensures Tiled(a + [x], start)
    ensures LivePayload(a + [x]) == LivePayload(a) + if x.free then 0 else x.size
    ensures Holes(a + [x]) == Holes(a) + if x.free then [x.addr] else []
  {
    hide Extent, Tiled, LivePayload, Holes;
    OneBlock(x);
    ExtentConcat(a, [x]);
    TiledConcat(a, [x], start);
    SumsConcat(a, [x]);
  }

  // ---------- Freeing ----------

  function FirstMerged(blocks: seq<Block>, i: nat): (lo: nat)
    requires i < |blocks|
    ensures lo <= i
  {
    if i > 0 && blocks[i - 1].free then i - 1 else i
  }

  function LastMerged(blocks: seq<Block>, i: nat): (hi: nat)
    requires i < |blocks|
    ensures i <= hi < |blocks|
  {
    if i + 1 < |blocks| && blocks[i + 1].free then i + 1 else i
  }

  /** Block i becomes a hole and takes in the holes on either side. */
  function Release(blocks: seq<Block>, i: nat): seq<Block>
    requires i < |blocks|
  {
    var lo, hi := FirstMerged(blocks, i), LastMerged(blocks, i);
    blocks[..lo] + [Block(blocks[lo].addr, Extent(blocks[lo..hi + 1]) - MINIMUM_BLOCK_SIZE, true)] + blocks[hi + 1..]
  }
}
