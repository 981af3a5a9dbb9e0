/** 32-bit arithmetic on characters, and kstring_hash32 (libk/kstring.c). */
module KHash {
  import opened Bits
  import opened Numerals
  import opened KString

  const U32: nat := 0x1_0000_0000

  /** The value of a char, which is signed on this machine. */
  function Signed(c: char): (v: int)
    ensures -128 <= v < 128 && (c as int - v) % 256 == 0
  {
    var k := c as int % 256;
    if k < 128 then k else k - 256
  }

  function Mod32(x: int): (r: nat)
    ensures r < U32
  {
    x % U32
  }

  function HashOf(s: string): (h: nat)
    ensures h < U32
  {
    if s == [] then 5381 else Mod32(Signed(s[|s| - 1]) + HashOf(s[..|s| - 1]) * 33)
  }

  /** kstring_hash32: the hash of the string, or of its first n characters. */
  method Hash32(s: seq<char>, n: nat) returns (h: nat)
    requires CLength(s) < |s| || n <= |s|
    ensures h == HashOf(s[..CopyLength(s, n)])
    ensures var m := CopyLength(s, n); h == Mod32(5381 * Power(33, m) + Weighted(s[..m]))
  {
    hide Power, Weighted, HashOf, Mod32;
    HashOfNothing(s);
    h := 5381;
    var i := 0;
    while i < n && s[i] != NUL
      invariant i <= CopyLength(s, n) && (i < n ==> i < |s|) && h == HashOf(s[..i])
    {
      assert i != CLength(s);
      HashNext(s, i);
      h := Mod32(Signed(s[i]) + h * 33);
      i := i + 1;
    }
    if i < n {
      NulBounds(s, i);
    }
    HashLaw(s[..i]);
  }

  lemma HashNext(s: seq<char>, i: nat)
    requires i < |s|
    ensures HashOf(s[..i + 1]) == Mod32(Signed(s[i]) + HashOf(s[..i]) * 33)
  {
    assert s[..i + 1][..i] == s[..i];
  }

  lemma HashOfNothing(s: seq<char>)
    ensures HashOf(s[..0]) == 5381
  {
  }

  // ---------- The hash in positional notation ----------

  /** The characters weighted with powers of 33, the last one with 1. */
  function Weighted(s: string): int {
    if s == [] then 0 else Signed(s[0]) * Power(33, |s| - 1) + Weighted(s[1..])
  }

  lemma {:induction false} WeightedSnoc(s: string, c: char)
    ensures Weighted(s + [c]) == 33 * Weighted(s) + Signed(c)
  {
    if s == [] {
      assert [] + [c] == [c] && [c][1..] == [];
    } else {
      WeightedSnoc(s[1..], c);
      assert (s + [c])[1..] == s[1..] + [c];
      assert 33 * (Signed(s[0]) * Power(33, |s| - 1)) == Signed(s[0]) * (33 * Power(33, |s| - 1));
    }
  }

  /** The hash is 5381 times 33 to the length and the weighted characters, modulo 2^32. */
  lemma {:induction false} HashLaw(s: string)
    ensures HashOf(s) == Mod32(5381 * Power(33, |s|) + Weighted(s))
  {
    if s == [] {
    } else {
      var t, c := s[..|s| - 1], s[|s| - 1];
      HashLaw(t);
      WeightedSnoc(t, c);
      assert t + [c] == s;
      hide Signed, Weighted, Mod32;
      HashStep(5381 * Power(33, |t|) + Weighted(t), Signed(c));
      assert 33 * (5381 * Power(33, |t|)) == 5381 * (33 * Power(33, |t|));
    }
  }

  lemma HashStep(x: int, c: int)
    ensures Mod32(c + Mod32(x) * 33) == Mod32(33 * x + c)
  {
    Mod32Shift(c + Mod32(x) * 33, 33 * (x / U32));
  }

  lemma Mod32Shift(x: int, q: int)
    ensures Mod32(U32 * q + x) == Mod32(x)
  {
    DivModUnique(U32 * q + x, U32, q + x / U32, x % U32);
  }

  // ---------- Telling names apart ----------

  /** Two names of the same length that differ in one character only, of 8-bit characters there. */
  predicate OneLetterApart(s: string, t: string, i: nat) {
    && |s| == |t| && i < |s| && s[i] != t[i] && s[i] as int < 256 && t[i] as int < 256
    && s[..i] == t[..i] && s[i + 1..] == t[i + 1..]
  }

  lemma {:induction false} WeightedApart(s: string, t: string, i: nat)
    requires |s| == |t| && i < |s| && s[..i] == t[..i] && s[i + 1..] == t[i + 1..]
    ensures Weighted(s) - Weighted(t) == (Signed(s[i]) - Signed(t[i])) * Power(33, |s| - 1 - i)
  {
    hide Signed;
    if i == 0 {
    } else {
      var a, b := s[1..], t[1..];
      assert s[0] == s[..i][0] == t[..i][0] == t[0];
      assert a[..i - 1] == s[..i][1..] && b[..i - 1] == t[..i][1..];
      assert a[i..] == s[i + 1..] && b[i..] == t[i + 1..];
      WeightedApart(a, b, i - 1);
    }
  }

  lemma {:induction false} PowerIsOdd(k: nat)
    ensures Power(33, k) % 2 == 1
  {
    if k == 0 {
    } else {
      PowerIsOdd(k - 1);
    }
  }

  /** A power of two that divides a product with an odd number divides the other factor. */
  lemma {:induction false} OddFactor(d: int, p: nat, w: nat, q: int)
    requires p % 2 == 1 && d * p == Pow2(w) * q
    ensures exists r: int :: d == Pow2(w) * r
    decreases w
  {
    if w == 0 {
      assert d == Pow2(0) * d;
    } else {
      var half := Pow2(w - 1);
      assert d * p == 2 * (half * q);
      EvenFactor(d, p, half * q);
      var e := d / 2;
      assert 2 * (e * p) == 2 * (half * q);
      OddFactor(e, p, w - 1, q);
      var r: int :| e == half * r;
      assert d == Pow2(w) * r;
    }
  }

  lemma EvenFactor(d: int, p: nat, x: int)
    requires p % 2 == 1 && d * p == 2 * x
    ensures d % 2 == 0 && d == 2 * (d / 2) && d * p == 2 * (d / 2 * p)
  {
    var k, b := p / 2, d % 2;
    assert d * p == 2 * (d * k) + d;
    assert d == 2 * (x - d * k);
  }

  /** A difference of two letters, shifted to any place, is no multiple of 2^32. */
  lemma DifferenceStays(x: int, y: int, d: int, p: nat)
    requires x - y == d * p && p % 2 == 1 && -256 < d < 256 && d != 0
    ensures Mod32(x) != Mod32(y)
  {
    if Mod32(x) == Mod32(y) {
      SameRemainder(x, y, d * p);
      hide Mod32, Pow2;
      var q: int :| d * p == Pow2(32) * q;
      OddFactor(d, p, 32, q);
      SmallDifference(d);
    }
  }

  /** Such names never have the same hash. */
  lemma OneLetterTells(s: string, t: string, i: nat)
    requires OneLetterApart(s, t, i)
    ensures HashOf(s) != HashOf(t)
  {
    hide Weighted, Signed, Power, HashOf, Mod32;
    HashLaw(s);
    HashLaw(t);
    WeightedApart(s, t, i);
    SignedApart(s[i], t[i]);
    PowerIsOdd(|s| - 1 - i);
    DifferenceStays(5381 * Power(33, |s|) + Weighted(s), 5381 * Power(33, |t|) + Weighted(t),
                    Signed(s[i]) - Signed(t[i]), Power(33, |s| - 1 - i));
  }

  lemma SameRemainder(x: int, y: int, z: int)
    requires Mod32(x) == Mod32(y) && z == x - y
    ensures exists q: int :: z == Pow2(32) * q
  {
    ThirtyTwo();
    var q := x / U32 - y / U32;
    assert z == Pow2(32) * q;
  }

  lemma ThirtyTwo()
    ensures Pow2(32) == U32
  {
    assert Pow2(16) == 65536 by { assert Pow2(8) == 256; }
    assert Pow2(24) == 16777216;
  }

  lemma SignedApart(c: char, d: char)
    requires c != d && c as int < 256 && d as int < 256
    ensures Signed(c) != Signed(d) && -256 < Signed(c) - Signed(d) < 256
  {
  }

  lemma SmallDifference(d: int)
    requires -256 < d < 256 && d != 0
    ensures !exists r: int :: d == Pow2(32) * r
  {
    ThirtyTwo();
  }

  lemma TwoLetters(c: char, d: char)
    ensures HashOf([c, d]) == Mod32(5381 * 1089 + 33 * Signed(c) + Signed(d))
  {
    hide *;
    var s := [c, d];
    assert s == [c] + [d] && [c] == [] + [c];
    WeightedSnoc([], c);
    WeightedSnoc([c], d);
    SmallWeights();
    HashLaw(s);
    assert Weighted(s) == 33 * Signed(c) + Signed(d);
  }

  lemma SmallWeights()
    ensures Power(33, 2) == 1089 && Weighted([]) == 0
  {
    assert Power(33, 0) == 1 && Power(33, 1) == 33;
  }

  /** Names that differ in two places may: these two have the same hash. */
  lemma NamesCollide()
    ensures "Aa" != "B@"
    ensures HashOf("Aa") == HashOf("B@")
  {
    var s, t := "Aa", "B@";
    assert s[0] == 'A' && t[0] == 'B';
    SameHash(s, t);
  }

  lemma SameHash(s: string, t: string)
    requires |s| == 2 && |t| == 2 && 33 * Signed(s[0]) + Signed(s[1]) == 33 * Signed(t[0]) + Signed(t[1])
    ensures HashOf(s) == HashOf(t)
  {
    hide HashOf;
    TwoLetters(s[0], s[1]);
    TwoLetters(t[0], t[1]);
    assert s == [s[0], s[1]] && t == [t[0], t[1]];
  }
}
