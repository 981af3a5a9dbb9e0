/** What every directive shows, from the characters of the format to the characters of the text
    (libk/kstring_format.c). */
module FormatMeaning {
  import opened KChar
  import opened Numerals
  import opened FormatSpec
  import opened FormatProperties
  import opened FormatArguments

  // ---------- Directives as they are written ----------

  datatype Width = NoWidth | GivenWidth(n: nat) | StarWidth

  datatype Precision = NoPrecision | DotOnly | GivenPrecision(n: nat) | StarPrecision

  /** The parts of a directive behind its percent sign. */
  datatype Spec = Spec(minus: bool, plus: bool, space: bool, hash: bool, zero: bool, width: Width,
                       precision: Precision, length: string, letter: char)

  /** Amounts are ints, a width does not start with the zero flag, and the length is a single letter. */
  predicate ValidSpec(d: Spec) {
    && (d.width.GivenWidth? ==> 0 < d.width.n < 0x8000_0000)
    && (d.precision.GivenPrecision? ==> d.precision.n < 0x8000_0000)
    && (d.length == "" || (|d.length| == 1 && d.length[0] in "hlqjzt"))
    && d.letter in "bdiouxXcsp"
  }

  function Decimal(n: nat): string {
    Text(Digits(n, 10), false)
  }

  function If(b: bool, s: string): string {
    if b then s else ""
  }

  function WidthText(w: Width): string {
    match w
    case NoWidth => ""
    case GivenWidth(n) => Decimal(n)
    case StarWidth => "*"
  }

  function PrecisionText(p: Precision): string {
    match p
    case NoPrecision => ""
    case DotOnly => "."
    case GivenPrecision(n) => "." + Decimal(n)
    case StarPrecision => ".*"
  }

  function Written(d: Spec): string {
    "%" + (If(d.minus, "-") + (If(d.plus, "+") + (If(d.space, " ") + (If(d.hash, "#") + (If(d.zero, "0")
      + (WidthText(d.width) + (PrecisionText(d.precision) + (d.length + [d.letter]))))))))
  }

  /** The text t stands in the format at position i. */
  predicate Stands(fmt: string, i: nat, t: string) {
    i + |t| <= |fmt| && fmt[i..i + |t|] == t
  }

  lemma StandsApart(fmt: string, i: nat, s: string, t: string)
    requires Stands(fmt, i, s + t)
    ensures Stands(fmt, i, s) && Stands(fmt, i + |s|, t)
  {
    var u := fmt[i..i + |s + t|];
    assert u[..|s|] == s && u[|s|..] == t;
    assert fmt[i..i + |s|] == u[..|s|] && fmt[i + |s|..i + |s| + |t|] == u[|s|..];
  }

  lemma StandsFirst(fmt: string, i: nat, t: string)
    requires Stands(fmt, i, t) && t != ""
    ensures i < |fmt| && fmt[i] == t[0]
  {
    assert fmt[i..i + |t|][0] == t[0];
  }

  // ---------- Reading one part ----------

  /** The digits that stand at position i end where they end. */
  lemma {:induction false} DigitsStand(fmt: string, i: nat, t: string)
    requires Ascii(fmt) && Stands(fmt, i, t) && AllNumerals(t)
    requires i + |t| < |fmt| ==> !IsDigit(fmt[i + |t|])
    ensures DigitsEnd(fmt, i) == i + |t|
    decreases |t|
  {
    if t == "" {
    } else {
      StandsFirst(fmt, i, t);
      CaseConversion(fmt[i]);
      assert t == t[..1] + t[1..];
      StandsApart(fmt, i, t[..1], t[1..]);
      DigitsStand(fmt, i + 1, t[1..]);
    }
  }

  predicate AllNumerals(t: string) {
    forall k :: 0 <= k < |t| ==> '0' <= t[k] <= '9'
  }

  lemma DecimalIsNumerals(n: nat)
    requires n < 0x1_0000_0000
    ensures AllNumerals(Decimal(n)) && 0 < |Decimal(n)| < NUMBER_MAX
    ensures n > 0 ==> Decimal(n)[0] != '0'
    ensures Ascii(Decimal(n)) && Parse(Decimal(n), 10) == n
  {
    hide Digits, Parse, DigitChar;
    var ds := Digits(n, 10);
    PrintParse(n, 10, false);
    forall k | 0 <= k < |ds|
      ensures '0' <= Decimal(n)[k] <= '9'
    {
      LettersOfText(ds, false, k);
    }
    FewDigits(n);
    if n > 0 {
      FirstDigit(n, 10, false);
    }
  }

  lemma FewDigits(n: nat)
    requires n < 0x1_0000_0000
    ensures |Digits(n, 10)| < NUMBER_MAX
  {
    DigitCount(n, 10);
    var k := |Digits(n, 10)|;
    if k >= NUMBER_MAX {
      hide Digits, Power;
      PowerGrows(2, 10, 63, k - 1);
      PowerAdds(63, 1);
      TwoToThe64();
      One();
    }
  }

  lemma One()
    ensures Power(2, 1) == 2
  {
    assert Power(2, 0) == 1;
  }

  /** A number that stands in the format is read as that number. */
  lemma NumberStands(fmt: string, i: nat, n: nat)
    requires Ascii(fmt) && n < 0x1_0000_0000 && Stands(fmt, i, Decimal(n))
    requires i + |Decimal(n)| < |fmt| ==> !IsDigit(fmt[i + |Decimal(n)|])
    ensures DigitsEnd(fmt, i) == i + |Decimal(n)|
    ensures IntAt(fmt, i) == if n < 0x8000_0000 then n else n - 0x1_0000_0000
  {
    hide Parse, Decimal, Ascii;
    DecimalIsNumerals(n);
    DigitsStand(fmt, i, Decimal(n));
  }

  /** A flag character in its place, if it is there. */
  lemma FlagStands(fmt: string, i: nat, present: bool, c: char, m: Modifier, flags: Flags)
    requires Ascii(fmt) && Stands(fmt, i, If(present, [c]))
    requires (c == '-' && m == Minus) || (c == '+' && m == Plus) || (c == ' ' && m == Gap) || (c == '#' && m == Hash)
          || (c == '0' && m == Zero)
    ensures ParseDirective(fmt, i, flags) ==
              ParseDirective(fmt, i + |If(present, [c])|, if present then Modify(flags, m) else flags)
  {
    hide ParseDirective;
    if present {
      StandsFirst(fmt, i, [c]);
      ParseDirectiveStep(fmt, i, flags);
    }
  }

  /** One step over a width. */
  lemma WidthToken(fmt: string, i: nat, w: Width)
    requires Ascii(fmt) && Stands(fmt, i, WidthText(w)) && !w.NoWidth? && (w.GivenWidth? ==> 0 < w.n < 0x8000_0000)
    requires i + |WidthText(w)| < |fmt| && !IsDigit(fmt[i + |WidthText(w)|])
    ensures TokenAt(fmt, i) == Modifying(if w.StarWidth? then WidthArg else Width(w.n), i + |WidthText(w)|)
  {
    hide IntAt, DigitsEnd, Decimal;
    StandsFirst(fmt, i, WidthText(w)) by {
      if w.GivenWidth? {
        DecimalIsNumerals(w.n);
      }
    }
    if w.GivenWidth? {
      DecimalIsNumerals(w.n);
      NumberStands(fmt, i, w.n);
      CaseConversion(fmt[i]);
    }
  }

  /** One step over a precision. */
  lemma PrecisionToken(fmt: string, i: nat, p: Precision)
    requires Ascii(fmt) && Stands(fmt, i, PrecisionText(p)) && !p.NoPrecision? && (p.GivenPrecision? ==> p.n < 0x8000_0000)
    requires var j := i + |PrecisionText(p)|; j < |fmt| && !IsDigit(fmt[j]) && fmt[j] != '*'
    ensures TokenAt(fmt, i) ==
              Modifying(if p.StarPrecision? then PrecisionArg else Precision(if p.DotOnly? then 0 else p.n),
                        i + |PrecisionText(p)|)
  {
    hide TokenAt, Stands, Decimal, Classes, Ascii;
    match p
    case StarPrecision => StarToken(fmt, i);
    case GivenPrecision(n) => GivenToken(fmt, i, n);
    case DotOnly =>
      StandsFirst(fmt, i, ".");
      DotToken(fmt, i);
  }

  lemma StarToken(fmt: string, i: nat)
    requires Ascii(fmt) && Stands(fmt, i, ".*")
    ensures TokenAt(fmt, i) == Modifying(PrecisionArg, i + 2)
  {
    hide TokenAt, Classes, Stands;
    assert ".*" == "." + "*";
    StandsApart(fmt, i, ".", "*");
    StandsFirst(fmt, i, ".");
    StandsFirst(fmt, i + 1, "*");
    CaseConversion('*');
    DotToken(fmt, i);
  }

  lemma GivenToken(fmt: string, i: nat, n: nat)
    requires Ascii(fmt) && n < 0x8000_0000 && Stands(fmt, i, "." + Decimal(n))
    requires var j := i + |"." + Decimal(n)|; j < |fmt| && !IsDigit(fmt[j])
    ensures TokenAt(fmt, i) == Modifying(Precision(n), i + |"." + Decimal(n)|)
  {
    hide TokenAt, Classes, Stands, Decimal, IntAt, DigitsEnd, Ascii;
    DecimalIsNumerals(n);
    StandsApart(fmt, i, ".", Decimal(n));
    StandsFirst(fmt, i, ".");
    StandsFirst(fmt, i + 1, Decimal(n));
    NumberStands(fmt, i + 1, n);
    CaseConversion(fmt[i + 1]);
    DotToken(fmt, i);
  }

  lemma DotToken(fmt: string, i: nat)
    requires Ascii(fmt) && i + 1 < |fmt| && fmt[i] == '.'
    ensures IsDigit(fmt[i + 1]) && DigitsEnd(fmt, i + 1) - (i + 1) < NUMBER_MAX && IntAt(fmt, i + 1) >= 0 ==>
              TokenAt(fmt, i) == Modifying(Precision(IntAt(fmt, i + 1)), DigitsEnd(fmt, i + 1))
    ensures !IsDigit(fmt[i + 1]) && fmt[i + 1] == '*' ==> TokenAt(fmt, i) == Modifying(PrecisionArg, i + 2)
    ensures !IsDigit(fmt[i + 1]) && fmt[i + 1] != '*' ==> TokenAt(fmt, i) == Modifying(Precision(0), i + 1)
  {
    hide IntAt, DigitsEnd, Classes;
  }

  function TypeOf(length: string): TypeWidth {
    if length == "h" then ShortWidth
    else if length == "l" then LongWidth
    else if length == "q" then LongLongWidth
    else if length == "j" then IntMaxWidth
    else if length == "z" then SizeWidth
    else if length == "t" then PtrDiffWidth
    else IntWidth
  }

  /** The length letter in its place, if there is one. */
  lemma LengthStands(fmt: string, i: nat, length: string, flags: Flags)
    requires Ascii(fmt) && Stands(fmt, i, length) && (length == "" || (|length| == 1 && length[0] in "hlqjzt"))
    requires i + |length| < |fmt| && fmt[i + |length|] !in "hl"
    ensures ParseDirective(fmt, i, flags) ==
              ParseDirective(fmt, i + |length|, if length == "" then flags else flags.(typeWidth := TypeOf(length)))
  {
    hide ParseDirective, IntAt, DigitsEnd, Classes;
    if length != "" {
      StandsFirst(fmt, i, length);
      assert length == [length[0]];
      ParseDirectiveStep(fmt, i, flags);
    }
  }

  /** What the conversion letters mean. */
  function Meant(letter: char): Conversion {
    match letter
    case 'c' => Character
    case 's' => Str
    case 'p' => Pointer
    case _ => Number(IsSignedLetter(letter), BaseOfLetter(letter), letter == 'X')
  }

  predicate IsNumberLetter(letter: char) {
    letter in "bdiouxX"
  }

  predicate IsSignedLetter(letter: char) {
    letter == 'd' || letter == 'i'
  }

  function BaseOfLetter(letter: char): Base {
    if letter == 'b' then 2 else if letter == 'o' then 8 else if letter == 'x' || letter == 'X' then 16 else 10
  }

  lemma LetterStands(fmt: string, i: nat, letter: char, flags: Flags)
    requires Ascii(fmt) && Stands(fmt, i, [letter]) && letter in "bdiouxXcsp" && !flags.typeWidth.LongDoubleWidth?
    ensures ParseDirective(fmt, i, flags) == Done(Directive(flags, Meant(letter)), i + 1)
  {
    hide ParseDirective, IntAt, DigitsEnd, Classes;
    StandsFirst(fmt, i, [letter]);
    ParseDirectiveStep(fmt, i, flags);
  }

  // ---------- Reading a directive ----------

  function Amounts(d: Spec): string {
    WidthText(d.width) + (PrecisionText(d.precision) + (d.length + [d.letter]))
  }

  function Switches(d: Spec): Flags {
    DEFAULTS.(leftPad := !d.minus, sign := if d.space then SpaceStyle else if d.plus then Always else NegativeOnly,
              zeroPad := d.zero, prefix := d.hash)
  }

  function WidthOf(d: Spec): Amount {
    match d.width
    case NoWidth => Fixed(0)
    case GivenWidth(n) => Fixed(n)
    case StarWidth => FromArg(0)
  }

  function WidthStars(d: Spec): nat {
    if d.width.StarWidth? then 1 else 0
  }

  function PrecisionOf(d: Spec): Amount {
    match d.precision
    case GivenPrecision(n) => Fixed(n)
    case StarPrecision => FromArg(WidthStars(d))
    case _ => Fixed(0)
  }

  /** The argument words that the amounts take. */
  function StarsOf(d: Spec): nat {
    WidthStars(d) + if d.precision.StarPrecision? then 1 else 0
  }

  function FlagsOf(d: Spec): Flags {
    Switches(d).(typeWidth := TypeOf(d.length), width := WidthOf(d), precision := PrecisionOf(d), stars := StarsOf(d))
  }

  /** A flag character, if it is there, and what follows. */
  lemma FlagFirst(fmt: string, i: nat, present: bool, c: char, m: Modifier, flags: Flags, rest: string) returns (j: nat)
    requires Ascii(fmt) && Stands(fmt, i, If(present, [c]) + rest)
    requires (c == '-' && m == Minus) || (c == '+' && m == Plus) || (c == ' ' && m == Gap) || (c == '#' && m == Hash)
          || (c == '0' && m == Zero)
    ensures ParseDirective(fmt, i, flags) == ParseDirective(fmt, j, Switched(flags, present, m))
    ensures j == i + |If(present, [c])| && Stands(fmt, j, rest)
  {
    hide ParseDirective, Stands, Modify, Ascii;
    StandsApart(fmt, i, If(present, [c]), rest);
    FlagStands(fmt, i, present, c, m, flags);
    j := i + |If(present, [c])|;
  }

  function Switched(flags: Flags, present: bool, m: Modifier): Flags {
    if present then Modify(flags, m) else flags
  }

  lemma SwitchesAre(d: Spec)
    ensures Switched(Switched(Switched(Switched(Switched(DEFAULTS, d.minus, Minus), d.plus, Plus), d.space, Gap), d.hash, Hash),
                     d.zero, Zero) == Switches(d)
  {
  }

  lemma SwitchesStand(fmt: string, i: nat, d: Spec) returns (j: nat)
    requires Ascii(fmt)
    requires Stands(fmt, i, Behind(d))
    ensures ParseDirective(fmt, i, DEFAULTS) == ParseDirective(fmt, j, Switches(d)) && Stands(fmt, j, Amounts(d))
    ensures j == i + |If(d.minus, "-")| + |If(d.plus, "+")| + |If(d.space, " ")| + |If(d.hash, "#")| + |If(d.zero, "0")|
  {
    SwitchesAre(d);
    hide ParseDirective, Amounts, Stands, Switched, Switches, If, Ascii;
    var zero := If(d.zero, "0") + Amounts(d);
    var hash := If(d.hash, "#") + zero;
    var space := If(d.space, " ") + hash;
    var plus := If(d.plus, "+") + space;
    var a := Switched(DEFAULTS, d.minus, Minus);
    var b := Switched(a, d.plus, Plus);
    var c := Switched(b, d.space, Gap);
    var e := Switched(c, d.hash, Hash);
    j := FlagFirst(fmt, i, d.minus, '-', Minus, DEFAULTS, plus);
    j := FlagFirst(fmt, j, d.plus, '+', Plus, a, space);
    j := FlagFirst(fmt, j, d.space, ' ', Gap, b, hash);
    j := FlagFirst(fmt, j, d.hash, '#', Hash, c, zero);
    j := FlagFirst(fmt, j, d.zero, '0', Zero, e, Amounts(d));
  }

  /** The flags after the amounts and the length. */
  function WithWidth(f: Flags, w: Width): Flags {
    match w
    case NoWidth => f
    case GivenWidth(n) => f.(width := Fixed(n))
    case StarWidth => f.(width := FromArg(f.stars), stars := f.stars + 1)
  }

  function WithPrecision(f: Flags, p: Precision): Flags {
    match p
    case NoPrecision => f
    case DotOnly => f.(precision := Fixed(0))
    case GivenPrecision(n) => f.(precision := Fixed(n))
    case StarPrecision => f.(precision := FromArg(f.stars), stars := f.stars + 1)
  }

  function WithLength(f: Flags, length: string): Flags {
    if length == "" then f else f.(typeWidth := TypeOf(length))
  }

  lemma FlagsAre(d: Spec)
    ensures WithLength(WithPrecision(WithWidth(Switches(d), d.width), d.precision), d.length) == FlagsOf(d)
    ensures !FlagsOf(d).typeWidth.LongDoubleWidth?
  {
  }

  lemma WidthStands(fmt: string, i: nat, w: Width, f: Flags)
    requires Ascii(fmt) && Stands(fmt, i, WidthText(w)) && (w.GivenWidth? ==> 0 < w.n < 0x8000_0000)
    requires i + |WidthText(w)| < |fmt| && !IsDigit(fmt[i + |WidthText(w)|])
    ensures ParseDirective(fmt, i, f) == ParseDirective(fmt, i + |WidthText(w)|, WithWidth(f, w))
  {
    hide ParseDirective, TokenAt, Stands, Decimal, Classes, Ascii;
    if !w.NoWidth? {
      WidthToken(fmt, i, w);
      ParseDirectiveStep(fmt, i, f);
    }
  }

  lemma PrecisionStands(fmt: string, i: nat, p: Precision, f: Flags)
    requires Ascii(fmt) && Stands(fmt, i, PrecisionText(p)) && (p.GivenPrecision? ==> p.n < 0x8000_0000)
    requires var j := i + |PrecisionText(p)|; j < |fmt| && !IsDigit(fmt[j]) && fmt[j] != '*'
    ensures ParseDirective(fmt, i, f) == ParseDirective(fmt, i + |PrecisionText(p)|, WithPrecision(f, p))
  {
    hide ParseDirective, TokenAt, Stands, Decimal, Classes, Ascii;
    if !p.NoPrecision? {
      PrecisionToken(fmt, i, p);
      ParseDirectiveStep(fmt, i, f);
    }
  }

  /** Neither a letter of a length or a conversion nor the dot of a precision is a digit or a star. */
  lemma LettersEnd(fmt: string, i: nat, d: Spec)
    requires ValidSpec(d) && Ascii(fmt)
    requires Stands(fmt, i, d.length + [d.letter]) || Stands(fmt, i, PrecisionText(d.precision) + (d.length + [d.letter]))
    ensures i < |fmt| && !IsDigit(fmt[i]) && fmt[i] != '*'
  {
    hide Stands, Decimal, Classes, Ascii;
    var t := d.length + [d.letter];
    assert t[0] == if d.length == "" then d.letter else d.length[0];
    if Stands(fmt, i, t) {
      StandsFirst(fmt, i, t);
    } else {
      StandsFirst(fmt, i, PrecisionText(d.precision) + t);
      assert (PrecisionText(d.precision) + t)[0] == if d.precision.NoPrecision? then t[0] else '.';
    }
    CaseConversion(fmt[i]);
  }

  lemma AmountsStand(fmt: string, i: nat, d: Spec)
    requires Ascii(fmt) && ValidSpec(d) && Stands(fmt, i, Amounts(d))
    ensures ParseDirective(fmt, i, Switches(d)) == Done(Directive(FlagsOf(d), Meant(d.letter)), i + |Amounts(d)|)
  {
    FlagsAre(d);
    hide ParseDirective, Stands, Ascii, Switches, FlagsOf, WithWidth, WithPrecision, WithLength, WidthText, PrecisionText,
      Classes, Meant;
    var w, p, t := WidthText(d.width), PrecisionText(d.precision), d.length + [d.letter];
    var j, k := i + |w|, i + |w| + |p|;
    StandsApart(fmt, i, w, p + t);
    StandsApart(fmt, j, p, t);
    StandsApart(fmt, k, d.length, [d.letter]);
    LettersEnd(fmt, j, d);
    LettersEnd(fmt, k, d);
    StandsFirst(fmt, k + |d.length|, [d.letter]);
    var f := WithWidth(Switches(d), d.width);
    var g := WithPrecision(f, d.precision);
    WidthStands(fmt, i, d.width, Switches(d));
    PrecisionStands(fmt, j, d.precision, f);
    LengthReached(fmt, k, d, g);
    LetterStands(fmt, k + |d.length|, d.letter, FlagsOf(d));
  }

  lemma LengthReached(fmt: string, k: nat, d: Spec, g: Flags)
    requires Ascii(fmt) && ValidSpec(d) && Stands(fmt, k, d.length) && Stands(fmt, k + |d.length|, [d.letter])
    ensures ParseDirective(fmt, k, g) == ParseDirective(fmt, k + |d.length|, WithLength(g, d.length))
  {
    hide ParseDirective, Stands, Ascii;
    StandsFirst(fmt, k + |d.length|, [d.letter]);
    LengthStands(fmt, k, d.length, g);
  }

  /** A directive in a format is read as what it is. */
  lemma DirectiveIsRead(fmt: string, i: nat, d: Spec)
    requires Ascii(fmt) && ValidSpec(d) && Stands(fmt, i, Written(d))
    ensures i + |Written(d)| <= |fmt|
    ensures var rest := ParseFormat(fmt, i + |Written(d)|);
            ParseFormat(fmt, i) == Format([Directive(FlagsOf(d), Meant(d.letter))] + rest.items, rest.outcome)
  {
    hide *;
    WrittenIs(d);
    NoPercent(d);
    StandsApart(fmt, i, "%", Behind(d));
    StandsFirst(fmt, i, "%");
    StandsFirst(fmt, i + 1, Behind(d));
    AtIs(fmt, i + 1);
    var j := SwitchesStand(fmt, i + 1, d);
    StandsInside(fmt, i, Written(d));
    AmountsStand(fmt, j, d);
    ParseFormatStep(fmt, i);
  }

  lemma StandsInside(fmt: string, i: nat, t: string)
    requires Stands(fmt, i, t)
    ensures i + |t| <= |fmt|
  {
  }

  lemma AtIs(fmt: string, i: nat)
    requires Ascii(fmt) && i < |fmt|
    ensures At(fmt, i) == fmt[i]
  {
  }

  /** The directive behind its percent sign. */
  function Behind(d: Spec): string {
    If(d.minus, "-") + (If(d.plus, "+") + (If(d.space, " ") + (If(d.hash, "#") + (If(d.zero, "0") + Amounts(d)))))
  }

  lemma WrittenIs(d: Spec)
    ensures Written(d) == "%" + Behind(d)
    ensures |Written(d)| == 1 + |If(d.minus, "-")| + |If(d.plus, "+")| + |If(d.space, " ")| + |If(d.hash, "#")|
                          + |If(d.zero, "0")| + |Amounts(d)|
  {
    hide If, Decimal;
  }

  lemma NoPercent(d: Spec)
    requires ValidSpec(d)
    ensures Behind(d) != "" && Behind(d)[0] != '%'
  {
    AmountsBegin(d);
    hide Amounts;
  }

  lemma AmountsBegin(d: Spec)
    requires ValidSpec(d)
    ensures Amounts(d) != "" && Amounts(d)[0] != '%'
  {
    hide Decimal;
    if d.width.GivenWidth? {
      DecimalIsNumerals(d.width.n);
    }
  }

  // ---------- What is rejected ----------

  /** A character that is no part of a directive, wherever it stands in one. */
  lemma OthersAreRejected(fmt: string, i: nat, flags: Flags)
    requires Ascii(fmt) && i < |fmt| && fmt[i] !in "-+ #0*.jztLqhlbdiouxXcspn" && !('0' <= fmt[i] <= '9')
    ensures ParseDirective(fmt, i, flags) == Rejected
  {
    hide ParseDirective, IntAt, DigitsEnd, Classes;
    CaseConversion(fmt[i]);
    ParseDirectiveStep(fmt, i, flags);
  }

  /** A width or precision that is no int. */
  lemma GreatAmountsAreRejected(fmt: string, i: nat, n: nat, flags: Flags)
    requires Ascii(fmt) && 0x8000_0000 <= n < 0x1_0000_0000
    requires Stands(fmt, i, Decimal(n)) || Stands(fmt, i, "." + Decimal(n))
    requires var j := i + |Decimal(n)| + (if fmt[i] == '.' then 1 else 0); j < |fmt| ==> !IsDigit(fmt[j])
    ensures ParseDirective(fmt, i, flags) == Rejected
  {
    hide *;
    DecimalIsNumerals(n);
    if Stands(fmt, i, Decimal(n)) {
      NumeralFirst(fmt, i, Decimal(n));
      NumberStands(fmt, i, n);
      GreatWidth(fmt, i);
    } else {
      StandsApart(fmt, i, ".", Decimal(n));
      StandsFirst(fmt, i, ".");
      NumeralFirst(fmt, i + 1, Decimal(n));
      NumberStands(fmt, i + 1, n);
      GreatPrecision(fmt, i);
    }
    ParseDirectiveStep(fmt, i, flags);
  }

  lemma NumeralFirst(fmt: string, i: nat, t: string)
    requires Ascii(fmt) && Stands(fmt, i, t) && AllNumerals(t) && t != "" && |t| < NUMBER_MAX
    ensures i < |fmt| && fmt[i] == t[0] && IsDigit(fmt[i]) && '0' <= fmt[i] <= '9'
  {
    StandsFirst(fmt, i, t);
    CaseConversion(fmt[i]);
  }

  lemma GreatWidth(fmt: string, i: nat)
    requires Ascii(fmt) && i < |fmt| && '1' <= fmt[i] <= '9' && IntAt(fmt, i) < 0 && DigitsEnd(fmt, i) - i < NUMBER_MAX
    ensures TokenAt(fmt, i) == Unexpected
  {
    hide IntAt, DigitsEnd, Classes;
    CaseConversion(fmt[i]);
  }

  lemma GreatPrecision(fmt: string, i: nat)
    requires Ascii(fmt) && i + 1 < |fmt| && fmt[i] == '.' && IsDigit(fmt[i + 1])
    requires IntAt(fmt, i + 1) < 0 && DigitsEnd(fmt, i + 1) - (i + 1) < NUMBER_MAX
    ensures TokenAt(fmt, i) == Unexpected
  {
    hide IntAt, DigitsEnd, Classes;
  }
}
