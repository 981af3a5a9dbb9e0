/** Who holds memory: the live blocks of the heap are those handed out and not yet given back
    (arch/i686/mem/heap.c:380-537). */
module HeapLedger {
  import opened HeapModel
  import opened HeapProperties

  function Live(blocks: seq<Block>): set<Block> {
    set b | b in blocks && !b.free
  }

  lemma LiveConcat(a: seq<Block>, b: seq<Block>)
    ensures Live(a + b) == Live(a) + Live(b)
  {
  }

  lemma LiveOne(b: Block)
    ensures Live([b]) == if b.free then {} else {b}
  {
  }

  /** The live blocks around block i. */
  lemma LiveAround(blocks: seq<Block>, i: nat)
    requires i < |blocks|
    ensures Live(blocks) == Live(blocks[..i]) + Live([blocks[i]]) + Live(blocks[i + 1..])
  {
    hide Live;
    Around(blocks, i);
    LiveConcat(blocks[..i] + [blocks[i]], blocks[i + 1..]);
    LiveConcat(blocks[..i], [blocks[i]]);
  }

  /** No block stands twice in a heap. */
  lemma BlockIsOnce(blocks: seq<Block>, start: nat, i: nat, j: nat)
    requires Tiled(blocks, start) && i < |blocks| && j < |blocks| && i != j
    ensures blocks[i] != blocks[j]
  {
    hide Tiled;
    if i < j {
      BlocksInOrder(blocks, start, i, j);
    } else {
      BlocksInOrder(blocks, start, j, i);
    }
  }

  lemma OnlyLivePiece(b: Block, gap: nat, size: nat)
    requires Fits(b, gap, size)
    ensures CarvedAt(gap) < |Carve(b, gap, size)|
    ensures Live(Carve(b, gap, size)) == {Carve(b, gap, size)[CarvedAt(gap)]}
  {
    var bs := Carve(b, gap, size);
    assert forall k :: 0 <= k < |bs| && k != CarvedAt(gap) ==> bs[k].free;
  }

  /** An allocation adds exactly the block it hands out. */
  lemma AllocateAdds(blocks: seq<Block>, start: nat, i: nat, gap: nat, size: nat)
    requires Tiled(blocks, start) && i < |blocks| && Fits(blocks[i], gap, size)
    ensures var c := Carve(blocks[i], gap, size)[CarvedAt(gap)];
            c !in Live(blocks) && Live(Allocate(blocks, i, gap, size)) == Live(blocks) + {c}
  {
    hide Tiled, Carve;
    var m := Carve(blocks[i], gap, size);
    OnlyLivePiece(blocks[i], gap, size);
    CarveFits(blocks[i], gap, size);
    var c := m[CarvedAt(gap)];
    LiveAround(blocks, i);
    LiveOne(blocks[i]);
    LiveConcat(blocks[..i] + m, blocks[i + 1..]);
    LiveConcat(blocks[..i], m);
    if c in Live(blocks) {
      var j :| 0 <= j < |blocks| && blocks[j] == c;
      CarvedInside(blocks, start, i, gap, size, j);
    }
  }

  /** The block handed out overlaps no other block than the hole it was carved out of. */
  lemma CarvedInside(blocks: seq<Block>, start: nat, i: nat, gap: nat, size: nat, j: nat)
    requires Tiled(blocks, start) && i < |blocks| && Fits(blocks[i], gap, size) && j < |blocks| && j != i
    ensures blocks[j] != Carve(blocks[i], gap, size)[CarvedAt(gap)]
  {
    hide Tiled;
    if j < i {
      BlocksInOrder(blocks, start, j, i);
    } else {
      BlocksInOrder(blocks, start, i, j);
    }
  }

  /** Freeing takes away exactly the block given back: all other live blocks stay as they are. */
  lemma ReleaseTakes(blocks: seq<Block>, start: nat, i: nat)
    requires Tiled(blocks, start) && i < |blocks| && !blocks[i].free
    ensures blocks[i] in Live(blocks) && Live(Release(blocks, i)) == Live(blocks) - {blocks[i]}
  {
    hide Tiled, Extent;
    var lo, hi := FirstMerged(blocks, i), LastMerged(blocks, i);
    var t := Release(blocks, i);
    forall b
      ensures b in Live(t) <==> b in Live(blocks) && b != blocks[i]
    {
      if b in Live(blocks) && b != blocks[i] {
        var j :| 0 <= j < |blocks| && blocks[j] == b;
        assert t[if j < lo then j else j - (hi - lo)] == b;
      } else if b in Live(t) {
        var k :| 0 <= k < |t| && t[k] == b;
        var j := if k < lo then k else k + (hi - lo);
        assert blocks[j] == b;
        BlockIsOnce(blocks, start, i, j);
      }
    }
  }

  /** Who holds what after a run: allocations are entered, and what is given back is struck out. */
  function Ledger(blocks: seq<Block>, ops: seq<Operation>, held: set<Block>): set<Block>
    requires AllPossible(blocks, ops)
    decreases |ops|
  {
    if ops == [] then held
    else
      var after := Apply(blocks, ops[0]);
      match ops[0]
      case Alloc(i, gap, size) =>
        OnlyLivePiece(blocks[i], gap, size);
        Ledger(after, ops[1..], held + {Carve(blocks[i], gap, size)[CarvedAt(gap)]})
      case Free(i) => Ledger(after, ops[1..], held - {blocks[i]})
  }

  ghost predicate AllPossible(blocks: seq<Block>, ops: seq<Operation>)
    decreases |ops|
  {
    ops != [] ==> Possible(blocks, ops[0]) && AllPossible(Apply(blocks, ops[0]), ops[1..])
  }

  /** After any run the live blocks are exactly those allocated and not yet freed. */
  lemma {:induction false} LiveIsHeld(from: seq<Block>, start: nat, ops: seq<Operation>, to: seq<Block>)
    requires Tiled(from, start) && AllPossible(from, ops) && Reachable(from, ops, to)
    ensures Live(to) == Ledger(from, ops, Live(from))
    decreases |ops|
  {
    hide Tiled, Allocate, Release, Carve, Live, Extent;
    if ops == [] {
    } else {
      match ops[0] {
        case Alloc(i, gap, size) =>
          AllocateTiles(from, start, i, gap, size);
          AllocateAdds(from, start, i, gap, size);
        case Free(i) =>
          ReleaseTiles(from, start, i);
          ReleaseTakes(from, start, i);
      }
      LiveIsHeld(Apply(from, ops[0]), start, ops[1..], to);
    }
  }
}
