/** Positional notation: what kstring_format_uintmax writes and kstring_parse_intmax reads
    (libk/kstring.c). */
module Numerals {
  import opened Wrappers
  import opened Bits
  import opened KChar

  const UINTMAX_LIMIT: nat := 0x1_0000_0000_0000_0000
  const INTMAX_MAX: int := 0x7FFF_FFFF_FFFF_FFFF
  const INTMAX_MIN: int := -0x8000_0000_0000_0000

  /** Signed 64-bit wrap-around. */
  function Wrap64(x: int): int {
    (x + 0x8000_0000_0000_0000) % UINTMAX_LIMIT - 0x8000_0000_0000_0000
  }

  // ---------- Digits ----------

  function Quotient(v: nat, base: nat): nat
    requires base > 0
  {
    v / base
  }

  function Remainder(v: nat, base: nat): nat
    requires base > 0
  {
    v % base
  }

  /** The digits of v, least significant first; zero has one digit. */
  function Digits(v: nat, base: nat): (ds: seq<nat>)
    requires base >= 2
    ensures |ds| > 0
    ensures forall i :: 0 <= i < |ds| ==> ds[i] < base
    decreases v
  {
    QuotientBounds(v, base);
    if v / base > 0 then [v % base] + Digits(v / base, base) else [v % base]
  }

  lemma QuotientBounds(v: nat, base: nat)
    requires base >= 2
    ensures v / base > 0 ==> v / base < v
    ensures base * (v / base) <= v < base * (v / base + 1)
    ensures v % base < base
  {
    var q := v / base;
    assert v == base * q + v % base;
    MulMonotone(q, 2, base);
    assert base * (q + 1) == base * q + base;
  }

  /** The digits that fit in n places, but at least one. */
  function TakenDigits(v: nat, base: nat, n: nat): (ds: seq<nat>)
    requires base >= 2
    ensures |ds| > 0
    ensures forall i :: 0 <= i < |ds| ==> ds[i] < base
  {
    var ds, m := Digits(v, base), if n == 0 then 1 else n;
    if m < |ds| then ds[..m] else ds
  }

  function ValueOf(ds: seq<nat>, base: nat): nat {
    if ds == [] then 0 else ds[0] + base * ValueOf(ds[1..], base)
  }

  function Power(base: nat, n: nat): nat {
    if n == 0 then 1 else base * Power(base, n - 1)
  }

  /** The digits denote the number. */
  lemma {:induction false} DigitsDenote(v: nat, base: nat)
    requires base >= 2
    ensures ValueOf(Digits(v, base), base) == v
    decreases v
  {
    DigitsStep(v, base);
    DivMod(v, base);
    QuotientBounds(v, base);
    hide ValueOf, Digits;
    var q, r := v / base, v % base;
    if q > 0 {
      DigitsDenote(q, base);
      ValueCons(r, Digits(q, base), base);
    } else {
      assert [r] == [r] + [];
      ValueCons(r, [], base);
    }
  }

  lemma {:induction false} DigitsStep(v: nat, base: nat)
    requires base >= 2
    ensures Digits(v, base) == if v / base > 0 then [v % base] + Digits(v / base, base) else [v % base]
  {
  }

  lemma DivMod(v: nat, base: nat)
    requires base >= 2
    ensures v == v % base + base * (v / base)
  {
  }

  lemma {:induction false} ValueCons(d: nat, ds: seq<nat>, base: nat)
    ensures ValueOf([d] + ds, base) == d + base * ValueOf(ds, base)
    ensures ValueOf([], base) == 0
  {
    assert ([d] + ds)[1..] == ds;
  }

  /** No leading zero: the most significant digit is not zero unless the number is. */
  lemma {:induction false} NoLeadingZero(v: nat, base: nat)
    requires base >= 2
    ensures Digits(v, base)[|Digits(v, base)| - 1] == 0 <==> v == 0
    decreases v
  {
    if v / base > 0 {
      NoLeadingZero(v / base, base);
    } else {
      QuotientBounds(v, base);
    }
  }

  /** The digits are the shortest that can denote the number. */
  lemma {:induction false} DigitCount(v: nat, base: nat)
    requires base >= 2
    ensures v < Power(base, |Digits(v, base)|)
    ensures |Digits(v, base)| > 1 ==> v >= Power(base, |Digits(v, base)| - 1)
    decreases v
  {
    var n := |Digits(v, base)|;
    QuotientBounds(v, base);
    if v / base == 0 {
    } else {
      DigitCount(v / base, base);
      var p := Power(base, n - 1);
      MulMonotone(base, v / base + 1, p);
      if n > 2 {
        MulMonotone(base, Power(base, n - 2), v / base);
      }
    }
  }

  lemma MulMonotone(b: nat, x: nat, y: nat)
    requires x <= y
    ensures b * x <= b * y
  {
    assert b * (y - x) >= 0;
    assert b * y == b * x + b * (y - x);
  }

  /** When only n digits fit, they denote the number modulo base to the power n. */
  lemma {:induction false} LowDigits(v: nat, base: nat, n: nat)
    requires base >= 2 && n <= |Digits(v, base)|
    ensures Power(base, n) > 0
    ensures ValueOf(Digits(v, base)[..n], base) == v % Power(base, n)
    decreases n
  {
    PowerPositive(base, n);
    var ds := Digits(v, base);
    if n == 0 {
    } else {
      var p := Power(base, n - 1);
      assert ds[..n][0] == v % base;
      if v / base > 0 {
        LowDigits(v / base, base, n - 1);
        assert ds[..n][1..] == Digits(v / base, base)[..n - 1];
      } else {
        assert ds[..n][1..] == [];
        PowerPositive(base, 0);
        DivModUnique(0, p, 0, 0);
      }
      NestedModulus(v, base, p);
    }
  }

  lemma NestedModulus(v: nat, b: nat, p: nat)
    requires b > 0 && p > 0
    ensures b * p > 0
    ensures v % (b * p) == v % b + b * ((v / b) % p)
  {
    var q, r := (v / b) / p, (v / b) % p;
    MulAtLeast(b, p);
    assert v == b * (v / b) + v % b;
    assert v / b == p * q + r;
    assert b * (p * q + r) == b * p * q + b * r;
    assert q * (b * p) == b * p * q;
    assert b * r <= b * (p - 1) by { MulMonotone(b, r, p - 1); }
    assert b * (p - 1) == b * p - b;
    DivModUnique(v, b * p, q, v % b + b * r);
  }

  lemma {:induction false} PowerPositive(base: nat, n: nat)
    requires base > 0
    ensures Power(base, n) > 0
  {
    if n == 0 {
    } else {
      PowerPositive(base, n - 1);
      MulAtLeast(base, Power(base, n - 1));
    }
  }

  // ---------- Text ----------

  function DigitChar(d: nat, upper: bool): char {
    if d < 10 then '0' + d as char else (((if upper then 65 else 97) + d - 10) % 256) as char
  }

  /** The characters of the digits, ten numerals and 26 letters, in either letter case. */
  lemma DigitChars(d: nat, upper: bool)
    requires d < 36
    ensures DigitChar(d, upper) == if upper then "0123456789ABCDEFGHIJKLMNOPQRSTUVWXYZ"[d]
                                   else "0123456789abcdefghijklmnopqrstuvwxyz"[d]
  {
  }

  /** The digits as text, most significant first. */
  function Text(ds: seq<nat>, upper: bool): (s: string)
    ensures |s| == |ds|
    ensures forall i :: 0 <= i < |ds| ==> s[i] == DigitChar(ds[|ds| - 1 - i], upper)
  {
    if ds == [] then [] else Text(ds[1..], upper) + [DigitChar(ds[0], upper)]
  }

  lemma DigitRange(d: nat, upper: bool)
    requires d < 36
    ensures d < 10 ==> '0' <= DigitChar(d, upper) <= '9'
    ensures d >= 10 ==> if upper then 'A' <= DigitChar(d, upper) <= 'Z' else 'a' <= DigitChar(d, upper) <= 'z'
  {
  }

  /** Letters in the text of a number are of the case asked for, and stand for the digits from ten on. */
  lemma LettersOfText(ds: seq<nat>, upper: bool, i: nat)
    requires i < |ds| && forall k :: 0 <= k < |ds| ==> ds[k] < 36
    ensures var c, d := Text(ds, upper)[i], ds[|ds| - 1 - i];
            && (d < 10 ==> '0' <= c <= '9')
            && (d >= 10 ==> if upper then 'A' <= c <= 'Z' else 'a' <= c <= 'z')
  {
    hide DigitChar;
    DigitRange(ds[|ds| - 1 - i], upper);
  }

  /** What kstring_format_intmax writes when all digits fit. */
  function Printed(v: int, base: nat, upper: bool): string
    requires base >= 2
  {
    if v < 0 then "-" + Text(Digits(-v, base), upper) else Text(Digits(v, base), upper)
  }

  // ---------- Parsing ----------

  function DigitOf(c: ascii): Option<nat> {
    var u := ToUpperCase(c);
    if IsDigit(u) then Some((u - '0') as nat)
    else if IsAlpha(u) then (CaseConversion(c); CaseConversion(u); Some((u - 'A') as nat + 10))
    else None
  }

  predicate Ascii(s: string) {
    forall i :: 0 <= i < |s| ==> s[i] < 128 as char
  }

  /** The loop of kstring_parse_intmax from an accumulated number on; nothing when it meets a
      character that is neither digit nor letter. */
  function ParseFrom(number: int, s: string, base: int): Option<int>
    requires Ascii(s)
    decreases |s|
  {
    if s == [] then Some(number)
    else match DigitOf(s[0])
      case None => None
      case Some(d) => ParseFrom(Wrap64(Wrap64(number * base) + d), s[1..], base)
  }

  lemma {:induction false} ParseStep(number: int, s: string, base: int)
    requires Ascii(s)
    ensures s == [] ==> ParseFrom(number, s, base) == Some(number)
    ensures s != [] && DigitOf(s[0]).None? ==> ParseFrom(number, s, base) == None
    ensures s != [] && DigitOf(s[0]).Some? ==>
              ParseFrom(number, s, base) == ParseFrom(Wrap64(Wrap64(number * base) + DigitOf(s[0]).value), s[1..], base)
  {
  }

  function Parse(s: string, base: int): int
    requires Ascii(s)
  {
    if base < 2 then 0
    else
      var neg := s != [] && s[0] == '-';
      match ParseFrom(0, if neg then s[1..] else s, base)
      case None => 0
      case Some(number) => if neg then Wrap64(-number) else number
  }

  /** Every product and every sum of the loop stays within intmax_t. */
  ghost predicate NoOverflow(number: int, s: string, base: int)
    requires Ascii(s)
    decreases |s|
  {
    s != [] && DigitOf(s[0]).Some? ==>
      var d := DigitOf(s[0]).value;
      && INTMAX_MIN <= number * base <= INTMAX_MAX
      && INTMAX_MIN <= number * base + d <= INTMAX_MAX
      && NoOverflow(number * base + d, s[1..], base)
  }

  /** A printed digit is read back, in either letter case. */
  lemma DigitReadBack(d: nat, upper: bool)
    requires d < 36
    ensures 0 as char < DigitChar(d, upper) < 128 as char && DigitOf(DigitChar(d, upper)) == Some(d)
    ensures DigitChar(d, upper) != '-'
  {
    hide Classes;
    CaseConversion(DigitChar(d, upper));
    CaseConversion(ToUpperCase(DigitChar(d, upper)));
  }

  lemma TextIsAscii(ds: seq<nat>, upper: bool)
    requires forall i :: 0 <= i < |ds| ==> ds[i] < 36
    ensures Ascii(Text(ds, upper))
    ensures forall i :: 0 <= i < |ds| ==> Text(ds, upper)[i] != '\0' && Text(ds, upper)[i] != '-'
  {
    forall i | 0 <= i < |ds|
      ensures 0 as char < Text(ds, upper)[i] < 128 as char && Text(ds, upper)[i] != '-'
    {
      DigitReadBack(ds[|ds| - 1 - i], upper);
    }
  }

  lemma WrapSmall(x: int)
    ensures INTMAX_MIN <= x <= INTMAX_MAX ==> Wrap64(x) == x
    ensures Wrap64(INTMAX_MAX + 1) == INTMAX_MIN
  {
  }

  lemma {:induction false} ParseSnoc(number: int, s: string, c: char, base: int)
    requires Ascii(s) && c < 128 as char && DigitOf(c).Some?
    ensures Ascii(s + [c])
    ensures ParseFrom(number, s + [c], base) ==
              match ParseFrom(number, s, base)
              case None => None
              case Some(m) => Some(Wrap64(Wrap64(m * base) + DigitOf(c).value))
    decreases |s|
  {
    hide DigitOf, Wrap64;
    if s == [] {
      assert s + [c] == [c];
      assert [c][1..] == [];
    } else {
      assert (s + [c])[1..] == s[1..] + [c];
      match DigitOf(s[0])
      case None =>
      case Some(d) => ParseSnoc(Wrap64(Wrap64(number * base) + d), s[1..], c, base);
    }
  }

  lemma {:induction false} OverflowSnoc(number: int, s: string, c: char, base: int, value: int)
    requires Ascii(s) && c < 128 as char && DigitOf(c).Some?
    requires NoOverflow(number, s, base) && ParseFrom(number, s, base) == Some(value)
    requires INTMAX_MIN <= value * base <= INTMAX_MAX && INTMAX_MIN <= value * base + DigitOf(c).value <= INTMAX_MAX
    ensures Ascii(s + [c]) && NoOverflow(number, s + [c], base)
    decreases |s|
  {
    hide DigitOf, Wrap64;
    if s == [] {
      assert s + [c] == [c];
      assert [c][1..] == [];
    } else {
      assert (s + [c])[1..] == s[1..] + [c];
      var d := DigitOf(s[0]).value;
      WrapSmall(number * base);
      WrapSmall(number * base + d);
      OverflowSnoc(number * base + d, s[1..], c, base, value);
    }
  }

  /** Reading digits back gives their value, wrapped only if it is one too big. */
  lemma {:induction false} ParseText(ds: seq<nat>, base: nat, upper: bool)
    requires 2 <= base <= 36 && forall i :: 0 <= i < |ds| ==> ds[i] < base
    requires ValueOf(ds, base) <= INTMAX_MAX + 1
    ensures Ascii(Text(ds, upper))
    ensures ParseFrom(0, Text(ds, upper), base) == Some(Wrap64(ValueOf(ds, base)))
    ensures ValueOf(ds, base) <= INTMAX_MAX ==> NoOverflow(0, Text(ds, upper), base)
  {
    hide Wrap64, ParseFrom, NoOverflow;
    TextIsAscii(ds, upper);
    ParseNothing(base);
    if ds == [] {
    } else {
      var m, d := ValueOf(ds[1..], base), ds[0];
      LastStep(m, d, base);
      ParseText(ds[1..], base, upper);
      DigitReadBack(d, upper);
      ParseSnoc(0, Text(ds[1..], upper), DigitChar(d, upper), base);
      if ValueOf(ds, base) <= INTMAX_MAX {
        OverflowSnoc(0, Text(ds[1..], upper), DigitChar(d, upper), base, m);
      }
    }
  }

  lemma ParseNothing(base: int)
    ensures ParseFrom(0, [], base) == Some(Wrap64(0)) && NoOverflow(0, [], base)
  {
  }

  lemma LastStep(m: nat, d: nat, base: nat)
    requires 2 <= base && d < base && d + base * m <= INTMAX_MAX + 1
    ensures m <= INTMAX_MAX && Wrap64(m) == m
    ensures m * base <= d + base * m
    ensures Wrap64(Wrap64(m * base) + d) == Wrap64(d + base * m)
  {
    MulMonotone(m, 2, base);
    WrapLast(m, m * base, d);
  }

  lemma WrapLast(m: nat, p: nat, d: nat)
    requires 2 * m <= p && d + p <= INTMAX_MAX + 1
    ensures Wrap64(m) == m && Wrap64(Wrap64(p) + d) == Wrap64(d + p)
  {
  }

  // ---------- What any string is read as ----------

  predicate NumeralOrLetter(c: ascii) {
    '0' <= c <= '9' || 'A' <= c <= 'Z' || 'a' <= c <= 'z'
  }

  /** What a numeral or letter counts, in any base. */
  function Worth(c: ascii): int {
    if c <= '9' then c as int - 48 else if c <= 'Z' then c as int - 55 else c as int - 87
  }

  /** The value of a string in positional notation. */
  function Positional(s: string, base: int): int
    requires Ascii(s)
  {
    if s == [] then 0 else Positional(s[..|s| - 1], base) * base + Worth(s[|s| - 1])
  }

  lemma WrapAgain(x: int, q: int)
    ensures Wrap64(x + UINTMAX_LIMIT * q) == Wrap64(x)
  {
    var h := x + 0x8000_0000_0000_0000;
    DivModUnique(h + UINTMAX_LIMIT * q, UINTMAX_LIMIT, q + h / UINTMAX_LIMIT, h % UINTMAX_LIMIT);
  }

  /** Wrapping on the way changes nothing in the end. */
  lemma WrapOnTheWay(x: int, base: int, d: int)
    ensures Wrap64(Wrap64(Wrap64(x) * base) + d) == Wrap64(x * base + d)
    ensures Wrap64(-Wrap64(x)) == Wrap64(-x)
  {
    var a, b := (x + 0x8000_0000_0000_0000) / UINTMAX_LIMIT, (Wrap64(x) * base + 0x8000_0000_0000_0000) / UINTMAX_LIMIT;
    assert Wrap64(x) == x - UINTMAX_LIMIT * a;
    var y := Wrap64(x) * base;
    assert Wrap64(y) == y - UINTMAX_LIMIT * b;
    assert y == x * base - UINTMAX_LIMIT * (a * base);
    assert Wrap64(y) + d == x * base + d + UINTMAX_LIMIT * (-(a * base) - b);
    WrapAgain(x * base + d, -(a * base) - b);
    WrapAgain(-x, a);
  }

  lemma DigitIsWorth(c: ascii)
    ensures DigitOf(c) == if NumeralOrLetter(c) then Some(Worth(c)) else None
  {
    hide Classes;
    CaseConversion(c);
    CaseConversion(ToUpperCase(c));
  }

  lemma {:induction false} ReadFrom(s: string, base: int)
    requires Ascii(s)
    ensures ParseFrom(0, s, base) ==
              if forall k :: 0 <= k < |s| ==> NumeralOrLetter(s[k]) then Some(Wrap64(Positional(s, base))) else None
  {
    hide Wrap64, ParseFrom, Worth, DigitOf;
    if s == [] {
      ParseNothing(base);
      WrapSmall(0);
    } else {
      var t, c := s[..|s| - 1], s[|s| - 1];
      assert s == t + [c];
      ReadFrom(t, base);
      DigitIsWorth(c);
      if NumeralOrLetter(c) {
        ParseSnoc(0, t, c, base);
        WrapOnTheWay(Positional(t, base), base, Worth(c));
        assert forall k :: 0 <= k < |t| ==> s[k] == t[k];
      } else {
        BadEnd(0, t, c, base);
      }
    }
  }

  /** A bad character anywhere spoils the number. */
  lemma {:induction false} BadEnd(number: int, s: string, c: char, base: int)
    requires Ascii(s) && c < 128 as char && DigitOf(c).None?
    ensures Ascii(s + [c]) && ParseFrom(number, s + [c], base) == None
    decreases |s|
  {
    hide DigitOf, Wrap64;
    if s == [] {
      assert s + [c] == [c];
    } else {
      assert (s + [c])[1..] == s[1..] + [c];
      match DigitOf(s[0])
      case None =>
      case Some(d) => BadEnd(Wrap64(Wrap64(number * base) + d), s[1..], c, base);
    }
  }

  /** What kstring_parse_intmax reads from any string, after a minus sign if there is one: the value in
      positional notation, modulo 2^64, of numerals and letters, whether they are digits of the base or
      not; and 0 if there is any other character or the base is below two. */
  lemma ParseLaw(s: string, base: int)
    requires Ascii(s)
    ensures var neg := s != [] && s[0] == '-';
            var t := if neg then s[1..] else s;
            Parse(s, base) ==
              if base < 2 || exists k :: 0 <= k < |t| && !NumeralOrLetter(t[k]) then 0
              else Wrap64(if neg then -Positional(t, base) else Positional(t, base))
  {
    hide Wrap64, ParseFrom, Positional, NumeralOrLetter;
    var t := if s != [] && s[0] == '-' then s[1..] else s;
    ReadFrom(t, base);
    WrapOnTheWay(Positional(t, base), 0, 0);
  }

  /** Print and parse undo each other on every 64-bit value, in every base up to 36 and either
      letter case; except for the least value, nothing overflows on the way. */
  lemma PrintParse(v: int, base: nat, upper: bool)
    requires 2 <= base <= 36 && INTMAX_MIN <= v <= INTMAX_MAX
    ensures Ascii(Printed(v, base, upper)) && '\0' !in Printed(v, base, upper)
    ensures Parse(Printed(v, base, upper), base) == v
    ensures v > INTMAX_MIN ==>
              NoOverflow(0, if v < 0 then Printed(v, base, upper)[1..] else Printed(v, base, upper), base)
  {
    hide Wrap64, ParseFrom, Digits, NoOverflow, Text, DigitOf;
    var ds := Digits(if v < 0 then -v else v, base);
    DigitsDenote(if v < 0 then -v else v, base);
    ParseText(ds, base, upper);
    TextIsAscii(ds, upper);
    WrapSmall(v);
    WrapSmall(-v);
    if v < 0 {
      assert Printed(v, base, upper)[1..] == Text(ds, upper);
    }
  }
}
