/** The shift in ksorted_array_add as it is written: it moves a number of bytes where a number of
    elements is meant (libk/ksorted_array.c:118-134). Elements are pointers of four bytes. */
module ShiftAsWritten {
  import opened MemoryCopy
  import opened SortedArrays

  const SIZE: nat := 4
  const LIMIT: nat := 0x1_0000_0000

  type Pointer = p: nat | 0 < p < LIMIT witness 1

  function FromBytes(a: nat, b: nat, c: nat, d: nat): nat {
    a + 0x100 * b + 0x1_0000 * c + 0x100_0000 * d
  }

  lemma BytesOf(p: nat)
    requires p < LIMIT
    ensures p / 0x100_0000 < 0x100
    ensures FromBytes(p % 0x100, p / 0x100 % 0x100, p / 0x1_0000 % 0x100, p / 0x100_0000) == p
  {
    var a, b, c := p / 0x100, p / 0x1_0000, p / 0x100_0000;
    assert p == 0x100 * a + p % 0x100;
    assert a == 0x100 * b + a % 0x100;
    assert b == 0x100 * c + b % 0x100;
  }

  /** The word in slot j of an array in memory. */
  function Slot(mem: seq<Byte>, j: nat): nat
    requires SIZE * j + SIZE <= |mem|
  {
    FromBytes(mem[SIZE * j], mem[SIZE * j + 1], mem[SIZE * j + 2], mem[SIZE * j + 3])
  }

  /** The first slots hold the elements, and the slot behind them is null. */
  ghost predicate Holds(mem: seq<Byte>, s: seq<Pointer>) {
    && SIZE * |s| + SIZE <= |mem|
    && (forall j :: 0 <= j < |s| ==> Slot(mem, j) == s[j])
    && Slot(mem, |s|) == 0
  }

  /** The first slots hold the elements, whatever stands behind them. */
  ghost predicate Shows(mem: seq<Byte>, s: seq<Pointer>) {
    && SIZE * |s| <= |mem|
    && forall j :: 0 <= j < |s| ==> Slot(mem, j) == s[j]
  }

  function Store(mem: seq<Byte>, j: nat, p: nat): (r: seq<Byte>)
    requires SIZE * j + SIZE <= |mem| && p < LIMIT
    ensures |r| == |mem|
  {
    mem[SIZE * j := p % 0x100][SIZE * j + 1 := p / 0x100 % 0x100]
       [SIZE * j + 2 := p / 0x1_0000 % 0x100][SIZE * j + 3 := p / 0x100_0000]
  }

  lemma StoreSlot(mem: seq<Byte>, j: nat, p: nat, k: nat)
    requires SIZE * j + SIZE <= |mem| && SIZE * k + SIZE <= |mem| && p < LIMIT
    ensures Slot(Store(mem, j, p), k) == if k == j then p else Slot(mem, k)
  {
    hide FromBytes;
    BytesOf(p);
  }

  /** n bytes moved, by the contract of kmemory_copy. */
  function Shifted(mem: seq<Byte>, dst: nat, src: nat, n: nat): (r: seq<Byte>)
    requires dst + n <= |mem| && src + n <= |mem|
    ensures |r| == |mem| && Moved(r, mem, dst, src, n)
  {
    mem[..dst] + mem[src..src + n] + mem[dst + n..]
  }

  /** ksorted_array_add as written, with the element to go to position i of `count` ones. */
  function Added(mem: seq<Byte>, count: nat, i: nat, e: Pointer): (r: seq<Byte>)
    requires i <= count && SIZE * count + SIZE <= |mem|
    ensures |r| == |mem|
  {
    if i == count then Store(mem, count, e)
    else Store(Shifted(mem, SIZE * (i + 1), SIZE * i, count - i - 1), i, e)
  }

  /** The bytes moved never reach the slot behind the elements. */
  lemma LastSlotStays(mem: seq<Byte>, count: nat, i: nat, e: Pointer)
    requires i < count && SIZE * count + SIZE <= |mem|
    ensures Slot(Added(mem, count, i, e), count) == Slot(mem, count)
  {
    var mid := Shifted(mem, SIZE * (i + 1), SIZE * i, count - i - 1);
    StoreSlot(mid, i, e, count);
    assert forall k :: SIZE * count <= k < SIZE * count + SIZE ==> mid[k] == mem[k];
  }

  /** So with a null slot behind the elements the addition as written is right exactly if the element
      goes to the end, after all the others; anywhere else the last element is lost. */
  lemma AddedRightAtTheEnd(mem: seq<Byte>, s: seq<Pointer>, e: Pointer, before: (Pointer, Pointer) -> bool)
    requires Holds(mem, s)
    ensures var i := LowerBound(s, e, before);
            && (Shows(Added(mem, |s|, i, e), Insert(s, i, e)) <==> i == |s|)
            && (i < |s| ==> Slot(Added(mem, |s|, i, e), |s|) == 0)
  {
    hide Store, Slot, LowerBound;
    var i := LowerBound(s, e, before);
    var after, meant := Added(mem, |s|, i, e), Insert(s, i, e);
    if i == |s| {
      forall j | 0 <= j < |meant|
        ensures Slot(after, j) == meant[j]
      {
        StoreSlot(mem, |s|, e, j);
      }
    } else {
      LastSlotStays(mem, |s|, i, e);
      assert meant[|s|] == s[|s| - 1];
    }
  }
}
