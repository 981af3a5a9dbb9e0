/** Format strings as values: parsing a format into items, and rendering the items
    (libk/kstring_format.c). */
module FormatSpec {
  import opened KChar
  import opened Numerals

  const NUMBER_MAX: nat := 64
  const WORD: int := 0x1_0000_0000

  // ---------- Formats ----------

  datatype SignStyle = NegativeOnly | Always | SpaceStyle

  datatype TypeWidth = CharWidth | ShortWidth | IntWidth | LongWidth | LongLongWidth | IntMaxWidth | SizeWidth
                     | PtrDiffWidth | LongDoubleWidth

  /** A width or precision: given in the format, or the n-th argument word of the directive. */
  datatype Amount = Fixed(value: int) | FromArg(n: nat)

  datatype Flags = Flags(leftPad: bool, sign: SignStyle, zeroPad: bool, prefix: bool, typeWidth: TypeWidth,
                         width: Amount, precision: Amount, stars: nat)

  const DEFAULTS: Flags := Flags(true, NegativeOnly, false, false, IntWidth, Fixed(0), Fixed(0), 0)

  type Base = b: nat | 2 <= b <= 36 witness 10

  datatype Conversion = Number(signed: bool, base: Base, upper: bool) | Character | Str | Pointer

  datatype Item = Literal(c: char) | Directive(flags: Flags, conversion: Conversion)

  datatype Modifier = Minus | Plus | Gap | Hash | Zero | WidthArg | PrecisionArg
                    | Width(n: int) | Precision(n: int) | Length(width: TypeWidth)

  function Modify(f: Flags, m: Modifier): Flags {
    match m
    case Minus => f.(leftPad := false)
    case Plus => f.(sign := Always)
    case Gap => f.(sign := SpaceStyle)
    case Hash => f.(prefix := true)
    case Zero => f.(zeroPad := true)
    case WidthArg => f.(width := FromArg(f.stars), stars := f.stars + 1)
    case PrecisionArg => f.(precision := FromArg(f.stars), stars := f.stars + 1)
    case Width(n) => f.(width := Fixed(n))
    case Precision(n) => f.(precision := Fixed(n))
    case Length(w) => f.(typeWidth := w)
  }

  // ---------- Parsing ----------

  predicate WellFormed(fmt: string) {
    Ascii(fmt) && '\0' !in fmt
  }

  function At(fmt: string, i: nat): (c: ascii)
    requires Ascii(fmt)
  {
    if i < |fmt| then fmt[i] else '\0'
  }

  /** The end of the digits that start at i. */
  function DigitsEnd(fmt: string, i: nat): (j: nat)
    requires Ascii(fmt)
    ensures i <= j && (i <= |fmt| ==> j <= |fmt|)
    ensures i < |fmt| && IsDigit(fmt[i]) ==> j > i
    decreases |fmt| - i
  {
    if i < |fmt| && IsDigit(fmt[i]) then DigitsEnd(fmt, i + 1) else i
  }

  function Wrap32(x: int): int {
    (x + 0x8000_0000) % WORD - 0x8000_0000
  }

  /** The number that extract_int reads, converted to int. */
  function IntAt(fmt: string, i: nat): int
    requires Ascii(fmt) && i <= |fmt|
  {
    Wrap32(Parse(fmt[i..DigitsEnd(fmt, i)], 10))
  }

  datatype Token =
    | Modifying(m: Modifier, next: nat)
    | Converting(conversion: Conversion, next: nat)
    | Unexpected          // the code answers -1
    | OutOfScope          // the code runs past a buffer or the format, or the model leaves it out

  /** One step of the directive at position i. */
  function TokenAt(fmt: string, i: nat): (t: Token)
    requires Ascii(fmt)
    ensures t.Modifying? || t.Converting? ==> i < t.next <= |fmt|
  {
    var c, d := At(fmt, i), At(fmt, i + 1);
    if i >= |fmt| then OutOfScope
    else if c == '-' then Modifying(Minus, i + 1)
    else if c == '+' then Modifying(Plus, i + 1)
    else if c == ' ' then Modifying(Gap, i + 1)
    else if c == '#' then Modifying(Hash, i + 1)
    else if c == '0' then Modifying(Zero, i + 1)
    else if c == '*' then Modifying(WidthArg, i + 1)
    else if c == '.' then
      if IsDigit(d) then
        if DigitsEnd(fmt, i + 1) - (i + 1) >= NUMBER_MAX then OutOfScope
        else if IntAt(fmt, i + 1) < 0 then Unexpected
        else Modifying(Precision(IntAt(fmt, i + 1)), DigitsEnd(fmt, i + 1))
      else if d == '*' then Modifying(PrecisionArg, i + 2)
      else Modifying(Precision(0), i + 1)
    else if c == 'j' then Modifying(Length(IntMaxWidth), i + 1)
    else if c == 'z' then Modifying(Length(SizeWidth), i + 1)
    else if c == 't' then Modifying(Length(PtrDiffWidth), i + 1)
    else if c == 'L' then Modifying(Length(LongDoubleWidth), i + 1)
    else if c == 'q' then Modifying(Length(LongLongWidth), i + 1)
    else if c == 'h' then Modifying(Length(if d == 'h' then CharWidth else ShortWidth), i + 1)
    else if c == 'l' then Modifying(Length(if d == 'l' then LongLongWidth else LongWidth), i + 1)
    else if c == 'b' then Converting(Number(false, 2, false), i + 1)
    else if c == 'd' || c == 'i' then Converting(Number(true, 10, false), i + 1)
    else if c == 'o' then Converting(Number(false, 8, false), i + 1)
    else if c == 'u' then Converting(Number(false, 10, false), i + 1)
    else if c == 'X' then Converting(Number(false, 16, true), i + 1)
    else if c == 'x' then Converting(Number(false, 16, false), i + 1)
    else if c == 'c' then Converting(Character, i + 1)
    else if c == 's' then Converting(Str, i + 1)
    else if c == 'p' then Converting(Pointer, i + 1)
    else if c == 'n' then OutOfScope
    else if IsDigit(c) then
      if DigitsEnd(fmt, i) - i >= NUMBER_MAX then OutOfScope
      else if IntAt(fmt, i) < 0 then Unexpected
      else Modifying(Width(IntAt(fmt, i)), DigitsEnd(fmt, i))
    else Unexpected
  }

  datatype Parsed = Done(item: Item, next: nat) | Rejected | Undefined

  /** The directive whose modifiers so far are `flags` and that goes on at i. */
  function ParseDirective(fmt: string, i: nat, flags: Flags): (r: Parsed)
    requires Ascii(fmt)
    ensures r.Done? ==> i < r.next <= |fmt| && r.item.Directive?
    decreases |fmt| - i
  {
    match TokenAt(fmt, i)
    case Modifying(m, next) => ParseDirective(fmt, next, Modify(flags, m))
    case Converting(conversion, next) =>
      if conversion.Number? && flags.typeWidth.LongDoubleWidth? then Undefined
      else Done(Directive(flags, conversion), next)
    case Unexpected => Rejected
    case OutOfScope => Undefined
  }

  datatype Outcome = Complete | Stopped | Unknown

  datatype Format = Format(items: seq<Item>, outcome: Outcome)

  /** A percent sign starts a directive unless another one follows it. */
  function ParseFormat(fmt: string, i: nat): Format
    requires Ascii(fmt)
    decreases |fmt| - i
  {
    if i >= |fmt| then Format([], Complete)
    else if fmt[i] == '%' && At(fmt, i + 1) != '%' then
      match ParseDirective(fmt, i + 1, DEFAULTS)
      case Done(item, next) => var rest := ParseFormat(fmt, next); Format([item] + rest.items, rest.outcome)
      case Rejected => Format([], Stopped)
      case Undefined => Format([], Unknown)
    else var rest := ParseFormat(fmt, i + 1); Format([Literal(fmt[i])] + rest.items, rest.outcome)
  }

  // ---------- Rendering ----------

  /** The caller's stack words, the strings in memory by address, and whether va_list is passed by
      value, so that every directive starts again at the first argument. */
  datatype Machine = Machine(word: nat -> nat, text: nat -> string, byValue: bool)

  ghost predicate ValidMachine(m: Machine) {
    (forall k :: m.word(k) < WORD) && (forall a :: '\0' !in m.text(a) && |m.text(a)| < WORD)
  }

  function AmountOf(m: Machine, x: Amount, arg: nat): int {
    match x
    case Fixed(value) => value
    case FromArg(n) => Wrap32(m.word(arg + n))
  }

  /** Whether a value takes two words. */
  predicate IsWide(signed: bool, w: TypeWidth) {
    w.LongLongWidth? || w.IntMaxWidth? || (signed && w.SizeWidth?)
  }

  function ArgWords(item: Item): nat {
    match item
    case Literal(_) => 0
    case Directive(flags, conversion) =>
      flags.stars + match conversion
                    case Number(signed, _, _) => (if IsWide(signed, flags.typeWidth) then 2 else 1)
                    case _ => 1
  }

  /** The value of a number argument. */
  function NumberAt(m: Machine, signed: bool, w: TypeWidth, arg: nat): int {
    var low, high := m.word(arg), m.word(arg + 1);
    if IsWide(signed, w) then (if signed then Wrap64(low + WORD * high) else low + WORD * high)
    else if signed then Wrap32(low) else low
  }

  function Repeat(c: char, n: nat): (s: string)
    ensures |s| == n && forall i :: 0 <= i < n ==> s[i] == c
  {
    if n == 0 then [] else [c] + Repeat(c, n - 1)
  }

  /** The text s in a field: n is its nominal length and the width is taken as unsigned. */
  function Padded(s: string, n: nat, width: int, leftPad: bool, c: char): string {
    var field := width % WORD;
    var padding := Repeat(c, if n < field then field - n else 0);
    if leftPad then padding + s else s + padding
  }

  function SignText(negative: bool, sign: SignStyle): string {
    if negative then "-" else if sign.Always? then "+" else if sign.SpaceStyle? then " " else ""
  }

  function PrefixText(prefix: bool, base: nat, upper: bool): string {
    if !prefix then "" else if base == 8 then "0"
    else if base == 16 then (if upper then "0X" else "0x")
    else if base == 2 then "b" else ""
  }

  /** Sign and prefix come before the padding; only the digits are padded. */
  function RenderNumber(style: NumberStyle, width: int, v: int, base: Base, upper: bool): string {
    var digits := Text(TakenDigits(if v < 0 then -v else v, base, NUMBER_MAX), upper);
    SignText(v < 0, style.sign) + PrefixText(style.prefix, base, upper)
      + Padded(digits, |digits|, width, style.leftPad, if style.zeroPad then '0' else ' ')
  }

  datatype NumberStyle = NumberStyle(sign: SignStyle, prefix: bool, leftPad: bool, zeroPad: bool)

  function StyleOf(flags: Flags): NumberStyle {
    NumberStyle(flags.sign, flags.prefix, flags.leftPad, flags.zeroPad)
  }

  /** How format_pointer prints: of the flags given only the prefix counts. */
  function PointerStyle(flags: Flags): NumberStyle {
    NumberStyle(NegativeOnly, flags.prefix, true, true)
  }

  function RenderItem(m: Machine, item: Item, arg: nat): string
  {
    match item
    case Literal(c) => [c]
    case Directive(flags, conversion) =>
      var width, value := AmountOf(m, flags.width, arg), arg + flags.stars;
      match conversion
      case Number(signed, base, upper) =>
        RenderNumber(StyleOf(flags), width, NumberAt(m, signed, flags.typeWidth, value), base, upper)
      case Character =>
        var c := (m.word(value) % 256) as char;
        Padded(if c == '\0' then "" else [c], 1, width, flags.leftPad, ' ')
      case Str =>
        var s, precision := m.text(m.word(value)), AmountOf(m, flags.precision, arg);
        var n := if 0 < precision < |s| then precision else |s|;
        Padded(s[..n], n, width, flags.leftPad, ' ')
      case Pointer =>
        RenderNumber(PointerStyle(flags), 8, NumberAt(m, false, LongWidth, value), 16, true)
  }

  /** Where the next item finds its arguments. */
  function NextArg(m: Machine, item: Item, arg: nat): nat {
    if m.byValue then arg else arg + ArgWords(item)
  }

  function Render(m: Machine, items: seq<Item>, arg: nat): string
    decreases |items|
  {
    if items == [] then ""
    else RenderItem(m, items[0], arg) + Render(m, items[1..], NextArg(m, items[0], arg))
  }

  lemma {:induction false} ParseDirectiveStep(fmt: string, i: nat, flags: Flags)
    requires Ascii(fmt)
    ensures TokenAt(fmt, i).Modifying? ==>
              ParseDirective(fmt, i, flags) == ParseDirective(fmt, TokenAt(fmt, i).next, Modify(flags, TokenAt(fmt, i).m))
    ensures TokenAt(fmt, i).Converting? ==>
              var conversion := TokenAt(fmt, i).conversion;
              ParseDirective(fmt, i, flags) ==
                if conversion.Number? && flags.typeWidth.LongDoubleWidth? then Undefined
                else Done(Directive(flags, conversion), TokenAt(fmt, i).next)
    ensures TokenAt(fmt, i).Unexpected? ==> ParseDirective(fmt, i, flags) == Rejected
    ensures TokenAt(fmt, i).OutOfScope? ==> ParseDirective(fmt, i, flags) == Undefined
  {
  }

  /** The items from position i on, by the first of them. */
  lemma {:induction false} ParseFormatStep(fmt: string, i: nat)
    requires Ascii(fmt)
    ensures i >= |fmt| ==> ParseFormat(fmt, i) == Format([], Complete)
    ensures i < |fmt| && !(fmt[i] == '%' && At(fmt, i + 1) != '%') ==>
              ParseFormat(fmt, i) ==
                Format([Literal(fmt[i])] + ParseFormat(fmt, i + 1).items, ParseFormat(fmt, i + 1).outcome)
    ensures i < |fmt| && fmt[i] == '%' && At(fmt, i + 1) != '%' ==>
              match ParseDirective(fmt, i + 1, DEFAULTS)
              case Done(item, next) =>
                ParseFormat(fmt, i) == Format([item] + ParseFormat(fmt, next).items, ParseFormat(fmt, next).outcome)
              case Rejected => ParseFormat(fmt, i) == Format([], Stopped)
              case Undefined => ParseFormat(fmt, i) == Format([], Unknown)
  {
  }

  lemma {:induction false} RenderCons(m: Machine, item: Item, items: seq<Item>, arg: nat)
    ensures Render(m, [item] + items, arg) == RenderItem(m, item, arg) + Render(m, items, NextArg(m, item, arg))
    ensures forall a: nat :: Render(m, [], a) == ""
  {
    var all := [item] + items;
    assert all[1..] == items && all[0] == item;
  }
}
