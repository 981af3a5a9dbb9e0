/** Address alignment macros (include/arch/i686/redshift/mem/common.h). */
module Alignment {
  import opened Bits

  const PAGE_SIZE: nat := 0x1000
  const WORD_LIMIT: nat := 0x1_0000_0000

  /** ALIGN_MASK: the 32-bit complement of `a - 1`. */
  function AlignMask(a: nat): nat
    requires 1 <= a <= WORD_LIMIT
  {
    WORD_LIMIT - a
  }

  predicate IsAligned(x: nat, a: nat)
    requires 1 <= a <= WORD_LIMIT
  {
    And(x, AlignMask(a)) == 0
  }

  function AlignedAddr(x: nat, a: nat): nat
    requires 1 <= a <= WORD_LIMIT
  {
    And(x, AlignMask(a)) + a
  }

  /** The value that MAKE_ALIGNED leaves in its argument. */
  function MakeAligned(x: nat, a: nat): nat
    requires 1 <= a <= WORD_LIMIT
  {
    if !IsAligned(x, a) then AlignedAddr(x, a) else x
  }

  /** The alignment unit that MAKE_ALLOC_ALIGNED picks for an allocation. */
  function AllocUnit(size: nat): nat {
    if size >= 16 then 16 else if size >= 4 then 4 else if size >= 2 then 2 else 1
  }

  function MakeAllocAligned(x: nat, size: nat): nat {
    if size >= 16 then MakeAligned(x, 16)
    else if size >= 4 then MakeAligned(x, 4)
    else if size >= 2 then MakeAligned(x, 2)
    else x
  }

  /** A unit that the macros are meant for. */
  ghost predicate PowerOfTwo(a: nat) {
    exists k: nat :: k <= 32 && a == Pow2(k)
  }

  lemma MaskedAddress(x: nat, a: nat)
    requires PowerOfTwo(a) && x < WORD_LIMIT
    ensures 1 <= a <= WORD_LIMIT && And(x, AlignMask(a)) == x - x % a
  {
    SmallPowers();
    hide Pow2, And;
    var k: nat :| k <= 32 && a == Pow2(k);
    HighMask(x, k, 32);
  }

  /** The units that the kernel uses. */
  lemma UnitsArePowers()
    ensures PowerOfTwo(1) && PowerOfTwo(2) && PowerOfTwo(4) && PowerOfTwo(8) && PowerOfTwo(16) && PowerOfTwo(PAGE_SIZE)
  {
    SmallPowers();
  }

  lemma SmallPowers()
    ensures Pow2(0) == 1 && Pow2(1) == 2 && Pow2(2) == 4 && Pow2(3) == 8 && Pow2(4) == 16
    ensures Pow2(12) == PAGE_SIZE && Pow2(32) == WORD_LIMIT
  {
    assert Pow2(8) == 256;
    assert Pow2(12) == 4096;
    assert Pow2(16) == 65536;
    assert Pow2(20) == 1048576;
    assert Pow2(24) == 16777216;
    assert Pow2(28) == 268435456;
  }

  /** What MAKE_ALIGNED does: an address of at least one unit always moves strictly up to an
      aligned one, even if it was aligned already; a smaller one is left where it is. */
  lemma MakeAlignedMoves(x: nat, a: nat)
    requires PowerOfTwo(a) && x < WORD_LIMIT
    ensures 1 <= a <= WORD_LIMIT
    ensures MakeAligned(x, a) == if x < a then x else x - x % a + a
    ensures x >= a ==> x < MakeAligned(x, a) <= x + a && MakeAligned(x, a) % a == 0
  {
    MaskedAddress(x, a);
    RoundDown(x, a);
  }

  lemma RoundDown(x: nat, a: nat)
    requires a > 0
    ensures x < a ==> x % a == x
    ensures x >= a ==> x - x % a >= a
    ensures (x - x % a) % a == 0 && (x - x % a + a) % a == 0
  {
    var q := x / a;
    assert x == q * a + x % a;
    DivModUnique(q * a, a, q, 0);
    assert (q + 1) * a == q * a + a;
    DivModUnique(q * a + a, a, q + 1, 0);
    if x >= a {
      assert q >= 1;
      MulAtLeast(q, a);
    } else {
      DivModUnique(x, a, 0, x);
    }
  }

  /** From one unit on IS_ALIGNED answers no. */
  lemma NeverAligned(x: nat, a: nat)
    requires PowerOfTwo(a) && a <= x < WORD_LIMIT
    ensures 1 <= a <= WORD_LIMIT && !IsAligned(x, a)
  {
    MaskedAddress(x, a);
    RoundDown(x, a);
  }

  /** The result is a multiple of the unit exactly when the argument was at least one unit
      (or zero): below one unit the macro takes every address for aligned. */
  lemma AlignedExactlyFromOneUnit(x: nat, a: nat)
    requires PowerOfTwo(a) && x < WORD_LIMIT
    ensures 1 <= a <= WORD_LIMIT
    ensures MakeAligned(x, a) % a == 0 <==> (x >= a || x == 0)
  {
    MakeAlignedMoves(x, a);
    RoundDown(x, a);
  }

  /** The macro is not the identity on aligned addresses: one page up is two pages. */
  lemma AlignedAddressMoves()
    ensures PAGE_SIZE % PAGE_SIZE == 0 && MakeAligned(PAGE_SIZE, PAGE_SIZE) == 2 * PAGE_SIZE
  {
    UnitsArePowers();
    MakeAlignedMoves(PAGE_SIZE, PAGE_SIZE);
  }

  /** y is the least multiple of the unit above x. */
  predicate NextMultiple(y: nat, x: nat, a: nat)
    requires a > 0
  {
    y % a == 0 && x < y <= x + a
  }

  /** Where an allocation of a size goes: blocks of 16 bytes and more on the next multiple of 16, of
      four to 15 bytes on the next multiple of four, of two and three bytes on the next multiple of
      two, and a single byte where it is. */
  predicate SizeAligned(y: nat, x: nat, size: nat) {
    && (size >= 16 ==> NextMultiple(y, x, 16))
    && (4 <= size < 16 ==> NextMultiple(y, x, 4))
    && (2 <= size < 4 ==> NextMultiple(y, x, 2))
    && (size < 2 ==> y == x)
  }

  lemma MakeAllocAlignedMoves(x: nat, size: nat)
    requires 16 <= x < WORD_LIMIT
    ensures SizeAligned(MakeAllocAligned(x, size), x, size)
    ensures x <= MakeAllocAligned(x, size) <= x + AllocUnit(size)
    ensures MakeAllocAligned(x, size) % AllocUnit(size) == 0
  {
    UnitsArePowers();
    MakeAlignedMoves(x, 16);
    MakeAlignedMoves(x, 4);
    MakeAlignedMoves(x, 2);
  }

  /** There is only one next multiple. */
  lemma NextMultipleIsLeast(y: nat, x: nat, a: nat, z: nat)
    requires a > 0 && NextMultiple(y, x, a) && z > x && z % a == 0
    ensures y <= z
  {
    if z < y {
      var q, r := y / a, z / a;
      assert y == q * a && z == r * a;
      assert (q - r) * a == q * a - r * a;
      SmallMultiple(q - r, a, y - z);
    }
  }
}
