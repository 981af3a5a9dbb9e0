/** Bitwise operations on unsigned machine words, modelled as natural numbers
    (include/libk/kmacro.h). */
module Bits {

  function Pow2(k: nat): (r: nat)
    ensures r >= 1
  {
    if k == 0 then 1 else 2 * Pow2(k - 1)
  }

  /** The C operator `x & y`, one bit at a time. */
  function And(x: nat, y: nat): nat {
    if x == 0 || y == 0 then 0 else 2 * And(x / 2, y / 2) + (if x % 2 == 1 && y % 2 == 1 then 1 else 0)
  }

  /** The C macro TEST_FLAG: all bits of `flag` are present in `word`. */
  predicate TestFlag(word: nat, flag: nat) {
    And(word, flag) == flag
  }

  function LowPart(x: nat, d: nat): nat
    requires d > 0
  {
    x % d
  }

  /** A mask of the bits k..w-1 clears exactly the low k bits of a w-bit word. */
  lemma HighMask(x: nat, k: nat, w: nat)
    requires k <= w && x < Pow2(w)
    ensures Pow2(k) <= Pow2(w)
    ensures And(x, Pow2(w) - Pow2(k)) == x - x % Pow2(k)
  {
    hide And, Pow2;
    HighMaskLow(x, k, w);
  }

  lemma {:induction false} HighMaskLow(x: nat, k: nat, w: nat)
    requires k <= w && x < Pow2(w)
    ensures Pow2(k) <= Pow2(w)
    ensures And(x, Pow2(w) - Pow2(k)) == x - LowPart(x, Pow2(k))
    decreases w
  {
    hide And, Pow2, LowPart;
    Pow2Monotone(k, w);
    if k == w {
      AndZero(x);
      BelowModulus(x, Pow2(w));
    } else if k == 0 {
      Pow2Step(0);
      FullMask(x, w);
      NoLowPart(x);
    } else {
      Pow2Step(k);
      Pow2Step(w);
      Pow2Monotone(k - 1, w - 1);
      HighMaskLow(x / 2, k - 1, w - 1);
      MaskStep(x, Pow2(k - 1), Pow2(w - 1), Pow2(k), Pow2(w));
    }
  }

  lemma BelowModulus(x: nat, d: nat)
    requires x < d
    ensures LowPart(x, d) == x
  {
    DivModUnique(x, d, 0, x);
  }

  lemma NoLowPart(x: nat)
    ensures LowPart(x, 1) == 0
  {
  }

  lemma MaskStep(x: nat, p: nat, q: nat, p2: nat, q2: nat)
    requires 0 < p <= q && p2 == 2 * p && q2 == 2 * q
    requires And(x / 2, q - p) == x / 2 - LowPart(x / 2, p)
    ensures And(x, q2 - p2) == x - LowPart(x, p2)
  {
    hide And;
    ModDouble(x, p);
    MaskDouble(x, (x / 2) % p, p, q);
  }

  lemma Pow2Step(k: nat)
    ensures Pow2(k) == if k == 0 then 1 else 2 * Pow2(k - 1)
  {
  }

  lemma AndZero(x: nat)
    ensures And(x, 0) == 0
  {
  }

  lemma {:induction false} MaskDouble(x: nat, r: nat, p: nat, q: nat)
    requires p <= q && r <= x / 2
    requires And(x / 2, q - p) == x / 2 - r
    ensures And(x, 2 * q - 2 * p) == x - (2 * r + x % 2)
  {
    AndStep(x, q - p, 0);
    assert 2 * (q - p) + 0 == 2 * q - 2 * p;
  }

  lemma {:induction false} FullMask(x: nat, w: nat)
    requires x < Pow2(w)
    ensures And(x, Pow2(w) - 1) == x
  {
    if w == 0 {
    } else {
      FullMask(x / 2, w - 1);
      AndStep(x, Pow2(w - 1) - 1, 1);
    }
  }

  lemma {:induction false} AndStep(x: nat, m: nat, b: nat)
    requires b < 2
    ensures And(x, 2 * m + b) == 2 * And(x / 2, m) + (if b == 1 then x % 2 else 0)
  {
    assert (2 * m + b) / 2 == m && (2 * m + b) % 2 == b;
  }

  lemma AndOne(x: nat)
    ensures And(x, 1) == x % 2
  {
    AndStep(x, 0, 1);
    AndZero(x / 2);
  }

  lemma {:induction false} Pow2Monotone(k: nat, w: nat)
    requires k <= w
    ensures Pow2(k) <= Pow2(w)
    decreases w
  {
    if k == w {
    } else {
      Pow2Monotone(k, w - 1);
    }
  }

  lemma ModDouble(x: nat, m: nat)
    requires m > 0
    ensures x % (2 * m) == 2 * ((x / 2) % m) + x % 2
  {
    var q, r := (x / 2) / m, (x / 2) % m;
    assert x == q * (2 * m) + (2 * r + x % 2);
    DivModUnique(x, 2 * m, q, 2 * r + x % 2);
  }

  /** Quotient and remainder are determined by their defining equation. */
  lemma DivModUnique(x: int, d: int, q: int, r: int)
    requires d > 0 && x == q * d + r && 0 <= r < d
    ensures x / d == q && x % d == r
  {
    SmallMultiple(q - x / d, d, x % d - r) by {
      assert x == (x / d) * d + x % d;
      assert (q - x / d) * d == q * d - (x / d) * d;
    }
  }

  lemma SmallMultiple(a: int, d: int, b: int)
    requires a * d == b && -d < b < d
    ensures a == 0
  {
    if a >= 1 {
      MulAtLeast(a, d);
    } else if a <= -1 {
      MulAtLeast(-a, d);
    }
  }

  lemma MulAtLeast(a: int, d: int)
    requires a >= 1 && d >= 0
    ensures a * d >= d
  {
    assert a * d == (a - 1) * d + d;
  }

  // ---------- Single bits ----------

  /** Bit k of x. */
  predicate Bit(x: nat, k: nat) {
    if k == 0 then x % 2 == 1 else Bit(x / 2, k - 1)
  }

  /** The C operator `x | y`. */
  function Or(x: nat, y: nat): nat
    decreases x + y
  {
    if x == 0 && y == 0 then 0
    else 2 * Or(x / 2, y / 2) + (if x % 2 == 1 || y % 2 == 1 then 1 else 0)
  }

  /** The C macros TEST_BIT, SET_BIT and CLEAR_BIT on a 32-bit word. */
  predicate TestBit(word: nat, pos: nat) {
    And(word, Pow2(pos)) != 0
  }

  function SetBit(word: nat, pos: nat): nat {
    Or(word, Pow2(pos))
  }

  function ClearBit(word: nat, pos: nat): nat
    requires pos < 32
  {
    Pow2Monotone(pos, 31);
    And(word, Pow2(32) - 1 - Pow2(pos))
  }

  lemma {:induction false} BitOfAnd(x: nat, y: nat, k: nat)
    ensures Bit(And(x, y), k) <==> Bit(x, k) && Bit(y, k)
    decreases k
  {
    if x == 0 || y == 0 {
      BitOfZero(k);
    } else if k > 0 {
      BitOfAnd(x / 2, y / 2, k - 1);
    }
  }

  lemma {:induction false} BitOfOr(x: nat, y: nat, k: nat)
    ensures Bit(Or(x, y), k) <==> Bit(x, k) || Bit(y, k)
    decreases k
  {
    if x == 0 && y == 0 {
      BitOfZero(k);
    } else if k > 0 {
      BitOfOr(x / 2, y / 2, k - 1);
    }
  }

  lemma {:induction false} BitOfZero(k: nat)
    ensures !Bit(0, k)
  {
    if k == 0 {
    } else {
      BitOfZero(k - 1);
    }
  }

  lemma {:induction false} BitOfPow2(j: nat, k: nat)
    ensures Bit(Pow2(j), k) <==> j == k
  {
    if j == 0 {
      if k == 0 {
      } else {
        BitOfZero(k - 1);
      }
    } else if k > 0 {
      BitOfPow2(j - 1, k - 1);
    }
  }

  /** All w low bits set but bit j. */
  lemma {:induction false} BitOfHole(w: nat, j: nat, k: nat)
    requires j < w
    ensures Pow2(j) <= Pow2(w) - 1
    ensures Bit(Pow2(w) - 1 - Pow2(j), k) <==> k < w && k != j
  {
    Pow2Monotone(j, w - 1);
    var x := Pow2(w) - 1 - Pow2(j);
    if j == 0 {
      assert x == 2 * (Pow2(w - 1) - 1);
      if k == 0 {
      } else {
        BitOfOnes(w - 1, k - 1);
      }
    } else {
      assert x == 2 * (Pow2(w - 1) - 1 - Pow2(j - 1)) + 1;
      if k == 0 {
      } else {
        BitOfHole(w - 1, j - 1, k - 1);
      }
    }
  }

  lemma {:induction false} BitOfOnes(w: nat, k: nat)
    ensures Bit(Pow2(w) - 1, k) <==> k < w
  {
    if w == 0 {
      BitOfZero(k);
    } else if k > 0 {
      assert (Pow2(w) - 1) / 2 == Pow2(w - 1) - 1;
      BitOfOnes(w - 1, k - 1);
    }
  }

  /** A w-bit word is the word of all ones exactly when every bit is set. */
  lemma {:induction false} AllOnes(x: nat, w: nat)
    requires x < Pow2(w)
    ensures x == Pow2(w) - 1 <==> forall k :: 0 <= k < w ==> Bit(x, k)
  {
    if x == Pow2(w) - 1 {
      forall k | 0 <= k < w
        ensures Bit(x, k)
      {
        BitOfOnes(w, k);
      }
    } else if w > 0 {
      AllOnes(x / 2, w - 1);
      if x % 2 == 0 {
        assert !Bit(x, 0);
      } else {
        var k :| 0 <= k < w - 1 && !Bit(x / 2, k);
        assert !Bit(x, k + 1);
      }
    }
  }

  lemma {:induction false} TestBitIsBit(word: nat, pos: nat)
    ensures TestBit(word, pos) <==> Bit(word, pos)
  {
    if word == 0 {
      BitOfZero(pos);
    } else if pos == 0 {
      AndZero(word / 2);
    } else {
      TestBitIsBit(word / 2, pos - 1);
    }
  }

  lemma {:induction false} OrBound(x: nat, y: nat, w: nat)
    requires x < Pow2(w) && y < Pow2(w)
    ensures Or(x, y) < Pow2(w)
  {
    if w == 0 {
    } else {
      OrBound(x / 2, y / 2, w - 1);
    }
  }

  lemma {:induction false} AndBound(x: nat, y: nat)
    ensures And(x, y) <= x
  {
    if x == 0 || y == 0 {
    } else {
      AndBound(x / 2, y / 2);
    }
  }

  lemma SetBitMeans(word: nat, pos: nat, k: nat)
    requires pos < 32 && word < Pow2(32)
    ensures Bit(SetBit(word, pos), k) <==> k == pos || Bit(word, k)
    ensures SetBit(word, pos) < Pow2(32)
  {
    hide Or, Bit;
    BitOfOr(word, Pow2(pos), k);
    BitOfPow2(pos, k);
    Pow2Monotone(pos, 31);
    OrBound(word, Pow2(pos), 32);
  }

  lemma ClearBitMeans(word: nat, pos: nat, k: nat)
    requires pos < 32 && word < Pow2(32) && k < 32
    ensures Bit(ClearBit(word, pos), k) <==> k != pos && Bit(word, k)
    ensures ClearBit(word, pos) < Pow2(32)
  {
    hide And, Bit;
    BitOfHole(32, pos, k);
    BitOfAnd(word, Pow2(32) - 1 - Pow2(pos), k);
    AndBound(word, Pow2(32) - 1 - Pow2(pos));
  }
}
