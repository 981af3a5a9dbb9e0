/** The text that a directive prints, for every letter, flag, width, precision and length
    (libk/kstring_format.c:77-368). */
module FormatShows {
  import opened KChar
  import opened Numerals
  import opened FormatSpec
  import opened FormatPointers
  import opened FormatProperties
  import opened FormatMeaning

  // ---------- What should be shown ----------

  /** The digits that a letter prints with. */
  function Alphabet(letter: char): string {
    match letter
    case 'b' => "01"
    case 'o' => "01234567"
    case 'x' => "0123456789abcdef"
    case 'X' => "0123456789ABCDEF"
    case _ => "0123456789"
  }

  function Prefix(letter: char): string {
    match letter
    case 'b' => "b"
    case 'o' => "0"
    case 'x' => "0x"
    case 'X' => "0X"
    case _ => ""
  }

  /** The number that digits of a base denote. */
  function Denoted(t: string, base: nat): int
    requires Ascii(t) && forall k :: 0 <= k < |t| ==> DigitOf(t[k]).Some?
  {
    if t == "" then 0 else Denoted(t[..|t| - 1], base) * base + DigitOf(t[|t| - 1]).value
  }

  /** The text is the number v in the letter's digits, without needless zeros. */
  ghost predicate Spells(t: string, v: nat, letter: char) {
    && t != "" && Ascii(t)
    && (forall k :: 0 <= k < |t| ==> t[k] in Alphabet(letter) && DigitOf(t[k]).Some?)
    && Denoted(t, |Alphabet(letter)|) == v
    && (|t| > 1 ==> t[0] != '0')
  }

  /** The text s in a field of a width: at its left end if asked, at its right end otherwise, and filled
      up with c. */
  ghost predicate InField(t: string, s: string, width: nat, left: bool, c: char) {
    && |t| == (if |s| < width then width else |s|)
    && (left ==> t[..|s|] == s && forall k :: |s| <= k < |t| ==> t[k] == c)
    && (!left ==> t[|t| - |s|..] == s && forall k :: 0 <= k < |t| - |s| ==> t[k] == c)
  }

  /** Whether a number takes two words. */
  predicate IsLongLong(d: Spec) {
    d.length == "q" || d.length == "j" || (d.length == "z" && IsSignedLetter(d.letter))
  }

  /** v is the argument in the words low and high: as an int or unsigned, in 32 or 64 bits. */
  predicate IsArgument(v: int, d: Spec, low: nat, high: nat) {
    var word := if IsLongLong(d) then low + 0x1_0000_0000 * high else low;
    var limit: nat := if IsLongLong(d) then 0x1_0000_0000_0000_0000 else 0x1_0000_0000;
    if IsSignedLetter(d.letter) then -2 * v <= limit && 2 * v < limit && (v == word || v == word - limit) else v == word
  }

  /** The width asked for; one from an argument is taken as unsigned. */
  function WidthAt(m: Machine, d: Spec, arg: nat): nat {
    match d.width
    case NoWidth => 0
    case GivenWidth(n) => n
    case StarWidth => m.word(arg)
  }

  /** The precision asked for; one from an argument may be negative. */
  function PrecisionAt(m: Machine, d: Spec, arg: nat): int {
    match d.precision
    case GivenPrecision(n) => n
    case StarPrecision =>
      var w := m.word(arg + if d.width.StarWidth? then 1 else 0);
      if w < 0x8000_0000 then w else w - 0x1_0000_0000
    case _ => 0
  }

  /** Where the value is, behind the words of the stars. */
  function ValueIndex(d: Spec, arg: nat): nat {
    arg + (if d.width.StarWidth? then 1 else 0) + if d.precision.StarPrecision? then 1 else 0
  }

  /** Where the next directive finds its arguments. */
  function NextIndex(m: Machine, d: Spec, arg: nat): nat {
    if m.byValue then arg else ValueIndex(d, arg) + if IsNumberLetter(d.letter) && IsLongLong(d) then 2 else 1
  }

  // ---------- From the format to the item ----------

  /** A directive in a format prints the text of its item and goes on behind it. */
  lemma DirectivePrints(m: Machine, fmt: string, i: nat, d: Spec, arg: nat)
    requires Ascii(fmt) && ValidSpec(d) && Stands(fmt, i, Written(d))
    ensures i + |Written(d)| <= |fmt|
    ensures Render(m, ParseFormat(fmt, i).items, arg) ==
              RenderItem(m, Directive(FlagsOf(d), Meant(d.letter)), arg)
              + Render(m, ParseFormat(fmt, i + |Written(d)|).items, NextIndex(m, d, arg))
  {
    hide *;
    DirectiveIsRead(fmt, i, d);
    NextIs(m, d, arg);
    RenderCons(m, Directive(FlagsOf(d), Meant(d.letter)), ParseFormat(fmt, i + |Written(d)|).items, arg);
  }

  lemma NextIs(m: Machine, d: Spec, arg: nat)
    requires ValidSpec(d)
    ensures NextArg(m, Directive(FlagsOf(d), Meant(d.letter)), arg) == NextIndex(m, d, arg)
  {
    WideIs(d);
  }

  lemma WideIs(d: Spec)
    requires ValidSpec(d)
    ensures IsWide(IsSignedLetter(d.letter), FlagsOf(d).typeWidth) <==> IsLongLong(d)
  {
  }

  /** A character that is no percent sign prints itself. */
  lemma LiteralPrints(m: Machine, fmt: string, i: nat, arg: nat)
    requires Ascii(fmt) && i < |fmt| && fmt[i] != '%'
    ensures Render(m, ParseFormat(fmt, i).items, arg) == [fmt[i]] + Render(m, ParseFormat(fmt, i + 1).items, arg)
  {
    hide ParseFormat;
    ParseFormatStep(fmt, i);
    RenderCons(m, Literal(fmt[i]), ParseFormat(fmt, i + 1).items, arg);
  }

  // ---------- Numbers ----------

  lemma ValueIsArgument(m: Machine, d: Spec, arg: nat)
    requires ValidSpec(d) && IsNumberLetter(d.letter) && ValidMachine(m)
    ensures var v := ValueIndex(d, arg);
            IsArgument(NumberAt(m, IsSignedLetter(d.letter), FlagsOf(d).typeWidth, v), d, m.word(v), m.word(v + 1))
  {
    hide FlagsOf;
    WideIs(d);
  }

  lemma WidthIs(m: Machine, d: Spec, arg: nat)
    requires ValidSpec(d) && ValidMachine(m)
    ensures AmountOf(m, FlagsOf(d).width, arg) % WORD == WidthAt(m, d, arg)
    ensures AmountOf(m, FlagsOf(d).precision, arg) == PrecisionAt(m, d, arg)
    ensures arg + FlagsOf(d).stars == ValueIndex(d, arg)
  {
  }

  lemma FieldIs(s: string, width: int, leftPad: bool, c: char)
    ensures InField(Padded(s, |s|, width, leftPad, c), s, width % WORD, !leftPad, c)
  {
    PaddedShape(s, width, leftPad, c);
  }

  lemma {:induction false} TextDenotes(ds: seq<nat>, base: nat, upper: bool)
    requires forall k :: 0 <= k < |ds| ==> ds[k] < 36
    ensures Ascii(Text(ds, upper)) && forall k :: 0 <= k < |ds| ==> DigitOf(Text(ds, upper)[k]).Some?
    ensures Denoted(Text(ds, upper), base) == ValueOf(ds, base)
  {
    hide DigitOf, DigitChar, Classes;
    TextIsAscii(ds, upper);
    forall k | 0 <= k < |ds|
      ensures DigitOf(Text(ds, upper)[k]).Some?
    {
      DigitReadBack(ds[|ds| - 1 - k], upper);
    }
    if ds == [] {
    } else {
      TextDenotes(ds[1..], base, upper);
      DigitReadBack(ds[0], upper);
      var t := Text(ds, upper);
      assert t[..|t| - 1] == Text(ds[1..], upper);
    }
  }

  /** Every digit of the letter's base is in its alphabet. */
  lemma InAlphabet(letter: char, d: nat)
    requires IsNumberLetter(letter) && d < BaseOfLetter(letter)
    ensures DigitChar(d, letter == 'X') in Alphabet(letter) && |Alphabet(letter)| == BaseOfLetter(letter)
  {
    var a := Alphabet(letter);
    DigitChars(d, letter == 'X');
    assert a[d] == DigitChar(d, letter == 'X');
  }

  lemma AllInAlphabet(ds: seq<nat>, letter: char)
    requires IsNumberLetter(letter) && forall k :: 0 <= k < |ds| ==> ds[k] < BaseOfLetter(letter)
    ensures var t := Text(ds, letter == 'X'); forall k :: 0 <= k < |t| ==> t[k] in Alphabet(letter)
    ensures |Alphabet(letter)| == BaseOfLetter(letter)
  {
    hide *;
    var t := Text(ds, letter == 'X');
    AlphabetSize(letter);
    forall k | 0 <= k < |ds|
      ensures t[k] in Alphabet(letter)
    {
      InAlphabet(letter, ds[|ds| - 1 - k]);
    }
  }

  lemma AlphabetSize(letter: char)
    requires IsNumberLetter(letter)
    ensures |Alphabet(letter)| == BaseOfLetter(letter)
  {
  }

  lemma Spelled(t: string, v: nat, letter: char, base: nat)
    requires t != "" && Ascii(t) && base == |Alphabet(letter)|
    requires forall k :: 0 <= k < |t| ==> t[k] in Alphabet(letter)
    requires forall k :: 0 <= k < |t| ==> DigitOf(t[k]).Some?
    requires Denoted(t, base) == v && (|t| > 1 ==> t[0] != '0')
    ensures Spells(t, v, letter)
  {
    hide DigitOf, Denoted, Alphabet, Ascii;
  }

  lemma DigitsSpell(v: nat, letter: char)
    requires IsNumberLetter(letter) && v < UINTMAX_LIMIT
    ensures Spells(Text(Digits(v, BaseOfLetter(letter)), letter == 'X'), v, letter)
  {
    hide *;
    var base, upper := BaseOfLetter(letter), letter == 'X';
    var ds := Digits(v, base);
    TextDenotes(ds, base, upper);
    DigitsDenote(v, base);
    AllInAlphabet(ds, letter);
    FrontDigit(v, base, upper);
    Spelled(Text(ds, upper), v, letter, base);
  }

  lemma FrontDigit(v: nat, base: nat, upper: bool)
    requires 2 <= base <= 36
    ensures var t := Text(Digits(v, base), upper); |t| > 1 ==> t[0] != '0'
  {
    hide DigitChar;
    var ds := Digits(v, base);
    NoLeadingZero(v, base);
    ZeroIsOneDigit(v, base);
    hide Digits;
    if |ds| > 1 {
      DigitRange(ds[|ds| - 1], upper);
      NotZeroChar(ds[|ds| - 1], upper);
    }
  }

  lemma NotZeroChar(d: nat, upper: bool)
    requires 0 < d < 36
    ensures DigitChar(d, upper) != '0'
  {
  }

  lemma ZeroIsOneDigit(v: nat, base: nat)
    requires base >= 2
    ensures v == 0 ==> |Digits(v, base)| == 1
  {
  }

  /** The text of a number item, in parts. */
  lemma NumberParts(style: NumberStyle, width: int, v: int, letter: char)
    returns (sign: string, digits: string, field: string)
    requires IsNumberLetter(letter) && v < UINTMAX_LIMIT && -v < UINTMAX_LIMIT
    ensures RenderNumber(style, width, v, BaseOfLetter(letter), letter == 'X') == sign + If(style.prefix, Prefix(letter)) + field
    ensures sign == if v < 0 then "-" else if style.sign.SpaceStyle? then " " else if style.sign.Always? then "+" else ""
    ensures Spells(digits, if v < 0 then -v else v, letter)
    ensures InField(field, digits, width % WORD, !style.leftPad, if style.zeroPad then '0' else ' ')
  {
    var u: nat := if v < 0 then -v else v;
    PrefixIs(style.prefix, letter);
    hide Digits, TakenDigits, Text, Padded, Spells, InField, PrefixText, BaseOfLetter, Prefix, If;
    DigitsFit(u, BaseOfLetter(letter));
    DigitsSpell(u, letter);
    sign, digits := SignText(v < 0, style.sign), Text(Digits(u, BaseOfLetter(letter)), letter == 'X');
    field := Padded(digits, |digits|, width, style.leftPad, if style.zeroPad then '0' else ' ');
    FieldIs(digits, width, style.leftPad, if style.zeroPad then '0' else ' ');
  }

  lemma PrefixIs(prefix: bool, letter: char)
    requires IsNumberLetter(letter)
    ensures PrefixText(prefix, BaseOfLetter(letter), letter == 'X') == If(prefix, Prefix(letter))
  {
  }

  /** A number directive, whatever its flags, prints the sign, the prefix and the digits of its argument:
      in the digits of its letter, in its field. */
  lemma NumberMeans(m: Machine, fmt: string, i: nat, d: Spec, arg: nat)
    returns (v: int, sign: string, digits: string, field: string)
    requires Ascii(fmt) && ValidSpec(d) && IsNumberLetter(d.letter) && Stands(fmt, i, Written(d)) && ValidMachine(m)
    ensures i + |Written(d)| <= |fmt|
    ensures Render(m, ParseFormat(fmt, i).items, arg) ==
              sign + If(d.hash, Prefix(d.letter)) + field
              + Render(m, ParseFormat(fmt, i + |Written(d)|).items, NextIndex(m, d, arg))
    ensures IsArgument(v, d, m.word(ValueIndex(d, arg)), m.word(ValueIndex(d, arg) + 1))
    ensures sign == if v < 0 then "-" else if d.space then " " else if d.plus then "+" else ""
    ensures Spells(digits, if v < 0 then -v else v, d.letter)
    ensures InField(field, digits, WidthAt(m, d, arg), d.minus, if d.zero then '0' else ' ')
  {
    hide *;
    DirectivePrints(m, fmt, i, d, arg);
    ValueIsArgument(m, d, arg);
    WidthIs(m, d, arg);
    var width := AmountOf(m, FlagsOf(d).width, arg);
    v := NumberAt(m, IsSignedLetter(d.letter), FlagsOf(d).typeWidth, ValueIndex(d, arg));
    ArgumentBounds(m, v, d, arg);
    NumberItemIs(m, d, arg, v, width);
    StyleIs(d);
    sign, digits, field := NumberParts(StyleOf(FlagsOf(d)), width, v, d.letter);
  }

  lemma StyleIs(d: Spec)
    ensures FlagsOf(d).leftPad == !d.minus && PointerStyle(FlagsOf(d)) == NumberStyle(NegativeOnly, d.hash, true, true)
    ensures var style := StyleOf(FlagsOf(d));
            && style.prefix == d.hash && style.leftPad == !d.minus && style.zeroPad == d.zero
            && style.sign == if d.space then SpaceStyle else if d.plus then Always else NegativeOnly
  {
  }

  /** The text of an item, for any flags. */
  lemma ItemIs(m: Machine, f: Flags, signed: bool, base: Base, upper: bool, arg: nat)
    ensures RenderItem(m, Directive(f, Number(signed, base, upper)), arg) ==
              RenderNumber(StyleOf(f), AmountOf(m, f.width, arg), NumberAt(m, signed, f.typeWidth, arg + f.stars), base, upper)
    ensures RenderItem(m, Directive(f, Pointer), arg) ==
              RenderNumber(PointerStyle(f), POINTER_DIGITS, m.word(arg + f.stars), 16, true)
  {
    hide RenderNumber;
  }

  lemma TextItemIs(m: Machine, f: Flags, arg: nat)
    ensures var c := (m.word(arg + f.stars) % 256) as char;
            RenderItem(m, Directive(f, Character), arg) ==
              Padded(if c == '\0' then "" else [c], 1, AmountOf(m, f.width, arg), f.leftPad, ' ')
    ensures var s, n := m.text(m.word(arg + f.stars)), AmountOf(m, f.precision, arg);
            var shown := if 0 < n < |s| then s[..n] else s;
            RenderItem(m, Directive(f, Str), arg) == Padded(shown, |shown|, AmountOf(m, f.width, arg), f.leftPad, ' ')
  {
    hide Padded;
    var s := m.text(m.word(arg + f.stars));
    assert s[..|s|] == s;
  }

  lemma MeantIs(letter: char)
    requires IsNumberLetter(letter)
    ensures Meant(letter) == Number(IsSignedLetter(letter), BaseOfLetter(letter), letter == 'X')
  {
  }

  lemma LettersMean()
    ensures Meant('c') == Character && Meant('s') == Str && Meant('p') == Pointer
  {
  }

  lemma NumberItemIs(m: Machine, d: Spec, arg: nat, v: int, width: int)
    requires ValidSpec(d) && IsNumberLetter(d.letter) && width == AmountOf(m, FlagsOf(d).width, arg) && ValidMachine(m)
    requires v == NumberAt(m, IsSignedLetter(d.letter), FlagsOf(d).typeWidth, ValueIndex(d, arg))
    ensures RenderItem(m, Directive(FlagsOf(d), Meant(d.letter)), arg)
         == RenderNumber(StyleOf(FlagsOf(d)), width, v, BaseOfLetter(d.letter), d.letter == 'X')
  {
    hide *;
    WidthIs(m, d, arg);
    MeantIs(d.letter);
    ItemIs(m, FlagsOf(d), IsSignedLetter(d.letter), BaseOfLetter(d.letter), d.letter == 'X', arg);
  }

  lemma ArgumentBounds(m: Machine, v: int, d: Spec, arg: nat)
    requires IsArgument(v, d, m.word(ValueIndex(d, arg)), m.word(ValueIndex(d, arg) + 1)) && ValidMachine(m)
    ensures v < UINTMAX_LIMIT && -v < UINTMAX_LIMIT
  {
    hide ValueIndex;
  }

  // ---------- Strings, characters and pointers ----------

  /** A string directive prints the string, or as much of it as a positive precision allows, in its
      field, which is never filled with zeros. */
  lemma StringMeans(m: Machine, fmt: string, i: nat, d: Spec, arg: nat) returns (field: string)
    requires Ascii(fmt) && ValidSpec(d) && d.letter == 's' && Stands(fmt, i, Written(d)) && ValidMachine(m)
    ensures i + |Written(d)| <= |fmt|
    ensures Render(m, ParseFormat(fmt, i).items, arg) ==
              field + Render(m, ParseFormat(fmt, i + |Written(d)|).items, NextIndex(m, d, arg))
    ensures var s, n := m.text(m.word(ValueIndex(d, arg))), PrecisionAt(m, d, arg);
            InField(field, if 0 < n < |s| then s[..n] else s, WidthAt(m, d, arg), d.minus, ' ')
  {
    hide *;
    DirectivePrints(m, fmt, i, d, arg);
    WidthIs(m, d, arg);
    StyleIs(d);
    LettersMean();
    TextItemIs(m, FlagsOf(d), arg);
    var s, n := m.text(m.word(ValueIndex(d, arg))), PrecisionAt(m, d, arg);
    var shown := if 0 < n < |s| then s[..n] else s;
    field := Padded(shown, |shown|, AmountOf(m, FlagsOf(d).width, arg), !d.minus, ' ');
    FieldIs(shown, AmountOf(m, FlagsOf(d).width, arg), !d.minus, ' ');
  }

  /** A character directive prints the low byte of its argument in its field. A NUL is left out, though
      the field is filled up as if it was there. */
  lemma CharacterMeans(m: Machine, fmt: string, i: nat, d: Spec, arg: nat) returns (field: string)
    requires Ascii(fmt) && ValidSpec(d) && d.letter == 'c' && Stands(fmt, i, Written(d)) && ValidMachine(m)
    ensures i + |Written(d)| <= |fmt|
    ensures Render(m, ParseFormat(fmt, i).items, arg) ==
              field + Render(m, ParseFormat(fmt, i + |Written(d)|).items, NextIndex(m, d, arg))
    ensures var c, width := (m.word(ValueIndex(d, arg)) % 256) as char, WidthAt(m, d, arg);
            if c == '\0' then InField(field, "", if width > 0 then width - 1 else 0, d.minus, ' ')
            else InField(field, [c], width, d.minus, ' ')
  {
    hide *;
    DirectivePrints(m, fmt, i, d, arg);
    WidthIs(m, d, arg);
    StyleIs(d);
    LettersMean();
    TextItemIs(m, FlagsOf(d), arg);
    var c, width := (m.word(ValueIndex(d, arg)) % 256) as char, AmountOf(m, FlagsOf(d).width, arg);
    field := Padded(if c == '\0' then "" else [c], 1, width, !d.minus, ' ');
    if c == '\0' {
      NothingInField(width, !d.minus);
    } else {
      FieldIs([c], width, !d.minus, ' ');
    }
  }

  lemma NothingInField(width: int, leftPad: bool)
    ensures var w := width % WORD;
            InField(Padded("", 1, width, leftPad, ' '), "", if w > 0 then w - 1 else 0, !leftPad, ' ')
  {
  }

  /** A pointer directive prints its argument in eight upper-case hexadecimal digits, with the prefix if
      asked for, whatever its other flags are. */
  lemma PointerMeans(m: Machine, fmt: string, i: nat, d: Spec, arg: nat) returns (text: string)
    requires Ascii(fmt) && ValidSpec(d) && d.letter == 'p' && Stands(fmt, i, Written(d)) && ValidMachine(m)
    ensures i + |Written(d)| <= |fmt|
    ensures Render(m, ParseFormat(fmt, i).items, arg) ==
              text + Render(m, ParseFormat(fmt, i + |Written(d)|).items, NextIndex(m, d, arg))
    ensures ShowsPointer(text, d.hash, m.word(ValueIndex(d, arg)))
  {
    hide *;
    DirectivePrints(m, fmt, i, d, arg);
    WidthIs(m, d, arg);
    StyleIs(d);
    LettersMean();
    ItemIs(m, FlagsOf(d), false, 16, true, arg);
    WordBound(m, ValueIndex(d, arg));
    PointerShowsWord(d.hash, m.word(ValueIndex(d, arg)));
    text := RenderItem(m, Directive(FlagsOf(d), Meant(d.letter)), arg);
  }

  lemma WordBound(m: Machine, k: nat)
    requires ValidMachine(m)
    ensures m.word(k) < WORD
  {
  }
}
