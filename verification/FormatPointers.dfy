/** How pointers are printed (libk/kstring_format.c:193-213). */
module FormatPointers {
  import opened Numerals
  import opened FormatSpec
  import opened FormatProperties

  const POINTER_DIGITS: nat := 8

  predicate UpperHex(c: char) {
    '0' <= c <= '9' || 'A' <= c <= 'F'
  }

  /** The prefix, if asked for, and eight upper-case hexadecimal digits that denote the word. */
  predicate ShowsPointer(t: string, prefix: bool, word: nat) {
    var p := if prefix then "0X" else "";
    && |t| == |p| + POINTER_DIGITS && t[..|p|] == p
    && (forall i :: 0 <= i < POINTER_DIGITS ==> UpperHex(t[|p|..][i]))
    && Ascii(t[|p|..]) && Parse(t[|p|..], 16) == word
  }

  function ZeroDigits(n: nat): (ds: seq<nat>)
    ensures |ds| == n && forall i :: 0 <= i < n ==> ds[i] == 0
  {
    if n == 0 then [] else ZeroDigits(n - 1) + [0]
  }

  /** Zeros in front of a number do not change what it denotes. */
  lemma {:induction false} LeadingZeros(ds: seq<nat>, n: nat, base: nat)
    ensures ValueOf(ds + ZeroDigits(n), base) == ValueOf(ds, base)
    decreases |ds|, n
  {
    var all := ds + ZeroDigits(n);
    if ds != [] {
      assert all[1..] == ds[1..] + ZeroDigits(n);
      LeadingZeros(ds[1..], n, base);
    } else if n > 0 {
      assert all[1..] == [] + ZeroDigits(n - 1);
      LeadingZeros([], n - 1, base);
    } else {
      assert all == ds;
    }
  }

  lemma PaddedIsText(ds: seq<nat>, n: nat, upper: bool)
    ensures Repeat('0', n) + Text(ds, upper) == Text(ds + ZeroDigits(n), upper)
  {
    var s, t := Repeat('0', n) + Text(ds, upper), Text(ds + ZeroDigits(n), upper);
    assert |s| == |t| && forall i :: 0 <= i < |s| ==> s[i] == t[i];
  }

  lemma SixteenToTheEighth()
    ensures Power(16, 8) == WORD
  {
    assert Power(16, 4) == 65536;
    assert Power(16, 8) == 16 * (16 * (16 * (16 * Power(16, 4))));
  }

  lemma WordFits(word: nat)
    requires word < WORD
    ensures |Digits(word, 16)| <= POINTER_DIGITS
  {
    DigitCount(word, 16);
    var n := |Digits(word, 16)|;
    if n > POINTER_DIGITS {
      PowerGrows(16, 16, POINTER_DIGITS, n - 1);
      SixteenToTheEighth();
    }
  }

  /** Eight hexadecimal digits as text. */
  lemma EightDigits(ds: seq<nat>, word: nat)
    requires |ds| == POINTER_DIGITS && forall i :: 0 <= i < |ds| ==> ds[i] < 16
    requires ValueOf(ds, 16) == word < WORD
    ensures Ascii(Text(ds, true)) && Parse(Text(ds, true), 16) == word
    ensures forall i :: 0 <= i < |ds| ==> UpperHex(Text(ds, true)[i])
  {
    hide ParseFrom, Wrap64, NoOverflow, ValueOf, DigitChar;
    ParseText(ds, 16, true);
    TextIsAscii(ds, true);
    WrapSmall(word);
    forall i | 0 <= i < |ds|
      ensures UpperHex(Text(ds, true)[i])
    {
      HexChar(ds[|ds| - 1 - i]);
    }
  }

  lemma HexChar(d: nat)
    requires d < 16
    ensures UpperHex(DigitChar(d, true))
  {
  }

  /** The digits of a word, in eight places. */
  function WordDigits(word: nat): (ds: seq<nat>)
    requires word < WORD
    ensures |ds| == POINTER_DIGITS && forall i :: 0 <= i < |ds| ==> ds[i] < 16
  {
    WordFits(word);
    Digits(word, 16) + ZeroDigits(POINTER_DIGITS - |Digits(word, 16)|)
  }

  lemma WordDigitsDenote(word: nat)
    requires word < WORD
    ensures ValueOf(WordDigits(word), 16) == word
    ensures Padded(Text(Digits(word, 16), true), |Digits(word, 16)|, POINTER_DIGITS, true, '0') == Text(WordDigits(word), true)
  {
    hide Digits, ValueOf, Text, Repeat;
    WordFits(word);
    var ds := Digits(word, 16);
    DigitsDenote(word, 16);
    LeadingZeros(ds, POINTER_DIGITS - |ds|, 16);
    PaddedIsText(ds, POINTER_DIGITS - |ds|, true);
  }

  /** Every pointer directive shows its word in this form, whatever its flags but the prefix. */
  lemma PointerShowsWord(prefix: bool, word: nat)
    requires word < WORD
    ensures ShowsPointer(RenderNumber(NumberStyle(NegativeOnly, prefix, true, true), POINTER_DIGITS, word, 16, true), prefix, word)
  {
    hide Digits, TakenDigits, Text, Parse, Padded, WordDigits, UpperHex, Ascii;
    DigitsFit(word, 16);
    WordDigitsDenote(word);
    EightDigits(WordDigits(word), word);
    var p, t := if prefix then "0X" else "", Text(WordDigits(word), true);
    Parts(p, t);
    assert "" + p + t == p + t;
  }

  lemma Parts(p: string, t: string)
    ensures (p + t)[..|p|] == p && (p + t)[|p|..] == t
  {
  }
}
