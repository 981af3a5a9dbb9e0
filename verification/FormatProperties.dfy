/** What formats mean (libk/kstring_format.c). */
module FormatProperties {
  import opened Wrappers
  import opened Numerals
  import opened FormatSpec

  // ---------- Flags, read declaratively ----------

  /** The modifiers of the directive at i, in order. */
  function Modifiers(fmt: string, i: nat): seq<Modifier>
    requires Ascii(fmt)
    decreases |fmt| - i
  {
    match TokenAt(fmt, i)
    case Modifying(m, next) => [m] + Modifiers(fmt, next)
    case _ => []
  }

  /** The last of the modifiers that has an opinion, or the default. */
  function Last<T>(ms: seq<Modifier>, pick: Modifier -> Option<T>, default: T): T {
    if ms == [] then default
    else match pick(ms[|ms| - 1])
      case Some(t) => t
      case None => Last(ms[..|ms| - 1], pick, default)
  }

  function PickSign(m: Modifier): Option<SignStyle> {
    if m.Plus? then Some(Always) else if m.Gap? then Some(SpaceStyle) else None
  }

  function PickType(m: Modifier): Option<TypeWidth> {
    if m.Length? then Some(m.width) else None
  }

  /** Amounts that come from arguments are numbered in the order of their stars. */
  function Stars(ms: seq<Modifier>): nat {
    if ms == [] then 0
    else Stars(ms[..|ms| - 1]) + if ms[|ms| - 1].WidthArg? || ms[|ms| - 1].PrecisionArg? then 1 else 0
  }

  function LastWidth(ms: seq<Modifier>): Amount {
    if ms == [] then Fixed(0)
    else match ms[|ms| - 1]
      case Width(n) => Fixed(n)
      case WidthArg => FromArg(Stars(ms[..|ms| - 1]))
      case _ => LastWidth(ms[..|ms| - 1])
  }

  function LastPrecision(ms: seq<Modifier>): Amount {
    if ms == [] then Fixed(0)
    else match ms[|ms| - 1]
      case Precision(n) => Fixed(n)
      case PrecisionArg => FromArg(Stars(ms[..|ms| - 1]))
      case _ => LastPrecision(ms[..|ms| - 1])
  }

  /** The reading of a directive's modifiers: the switches count if they occur anywhere, of sign,
      length, width and precision the last one wins, and stars take argument words in order. */
  function Reading(ms: seq<Modifier>): Flags {
    Flags(Minus !in ms, Last(ms, PickSign, NegativeOnly), Zero in ms, Hash in ms, Last(ms, PickType, IntWidth),
          LastWidth(ms), LastPrecision(ms), Stars(ms))
  }

  lemma ReadingSnoc(ms: seq<Modifier>, m: Modifier)
    ensures Reading(ms + [m]) == Modify(Reading(ms), m)
  {
    var all := ms + [m];
    assert all[..|all| - 1] == ms && all[|all| - 1] == m;
    assert forall x :: x in all <==> x in ms || x == m;
  }

  /** A parsed directive has exactly the flags that its modifiers mean. */
  lemma {:induction false} FlagsAreReading(fmt: string, i: nat, before: seq<Modifier>)
    requires Ascii(fmt)
    ensures var r := ParseDirective(fmt, i, Reading(before));
            r.Done? ==> r.item.flags == Reading(before + Modifiers(fmt, i))
    decreases |fmt| - i
  {
    hide TokenAt, Reading, Modify;
    ParseDirectiveStep(fmt, i, Reading(before));
    match TokenAt(fmt, i)
    case Modifying(m, next) =>
      ReadingSnoc(before, m);
      FlagsAreReading(fmt, next, before + [m]);
      assert before + [m] + Modifiers(fmt, next) == before + Modifiers(fmt, i);
    case _ =>
      assert before + [] == before;
  }

  lemma DirectiveFlags(fmt: string, i: nat)
    requires Ascii(fmt)
    ensures var r := ParseDirective(fmt, i, DEFAULTS);
            r.Done? ==> r.item.flags == Reading(Modifiers(fmt, i))
  {
    assert Reading([]) == DEFAULTS;
    FlagsAreReading(fmt, i, []);
    assert [] + Modifiers(fmt, i) == Modifiers(fmt, i);
  }

  // ---------- Fields ----------

  /** A field is as wide as asked or as its text needs, and holds the text at one end and only
      padding otherwise. */
  lemma PaddedShape(s: string, width: int, leftPad: bool, c: char)
    ensures var t, field := Padded(s, |s|, width, leftPad, c), width % WORD;
            && |t| == (if |s| < field then field else |s|)
            && (leftPad ==> t[|t| - |s|..] == s && forall k :: 0 <= k < |t| - |s| ==> t[k] == c)
            && (!leftPad ==> t[..|s|] == s && forall k :: |s| <= k < |t| ==> t[k] == c)
  {
  }

  /** A plain number directive prints what kstring_parse_intmax reads back. */
  lemma PlainNumberReadsBack(v: int)
    requires INTMAX_MIN <= v <= INTMAX_MAX
    ensures RenderNumber(StyleOf(DEFAULTS), 0, v, 10, false) == Printed(v, 10, false)
    ensures Ascii(RenderNumber(StyleOf(DEFAULTS), 0, v, 10, false))
    ensures Parse(RenderNumber(StyleOf(DEFAULTS), 0, v, 10, false), 10) == v
  {
    hide Digits, TakenDigits, Text, Parse, RenderNumber, Printed, Ascii, NoOverflow;
    PrintParse(v, 10, false);
    PlainNumberIsPrinted(v);
  }

  lemma PlainNumberIsPrinted(v: int)
    requires INTMAX_MIN <= v <= INTMAX_MAX
    ensures RenderNumber(StyleOf(DEFAULTS), 0, v, 10, false) == Printed(v, 10, false)
  {
    hide Digits, TakenDigits, Text, Padded;
    var u := if v < 0 then -v else v;
    DigitsFit(u, 10);
    var t := Text(TakenDigits(u, 10, NUMBER_MAX), false);
    Unpadded(t);
    assert "" + "" + t == t && "-" + "" + t == "-" + t;
  }

  lemma Unpadded(t: string)
    ensures Padded(t, |t|, 0, true, ' ') == t
  {
    assert Repeat(' ', 0) + t == t;
  }

  /** A 64-bit magnitude never needs more digits than the scratch buffer takes. */
  lemma DigitsFit(v: nat, base: nat)
    requires v < UINTMAX_LIMIT && base >= 2
    ensures |Digits(v, base)| <= NUMBER_MAX
    ensures TakenDigits(v, base, NUMBER_MAX) == Digits(v, base)
  {
    DigitCount(v, base);
    var n := |Digits(v, base)|;
    if n > NUMBER_MAX {
      PowerGrows(2, base, NUMBER_MAX, n - 1);
      TwoToThe64();
    }
  }

  lemma {:induction false} PowerGrows(a: nat, b: nat, m: nat, n: nat)
    requires 2 <= a <= b && m <= n
    ensures Power(a, m) <= Power(b, n)
    decreases n
  {
    PowerPositive(b, n);
    if m == 0 {
    } else {
      PowerGrows(a, b, m - 1, n - 1);
      MulMonotone(a, Power(a, m - 1), Power(b, n - 1));
      MulMonotone(Power(b, n - 1), a, b);
    }
  }

  lemma TwoToThe64()
    ensures Power(2, 64) == UINTMAX_LIMIT
  {
    assert Power(2, 4) == 16 by { assert Power(2, 2) == 4; }
    PowerAdds(4, 4);
    PowerAdds(8, 8);
    PowerAdds(16, 16);
    PowerAdds(32, 32);
  }

  lemma {:induction false} PowerAdds(m: nat, n: nat)
    ensures Power(2, m + n) == Power(2, m) * Power(2, n)
  {
    if m == 0 {
    } else {
      PowerAdds(m - 1, n);
      assert 2 * (Power(2, m - 1) * Power(2, n)) == (2 * Power(2, m - 1)) * Power(2, n);
    }
  }

  // ---------- Where the code departs from printf ----------

  /** A doubled percent sign is not an escape: the first one is printed and the second one is
      looked at again, so that the pair is used up as one sign in no format at all. */
  lemma PercentPairStartsAgain(fmt: string, i: nat)
    requires Ascii(fmt) && i + 1 < |fmt| && fmt[i] == '%' && fmt[i + 1] == '%'
    ensures ParseFormat(fmt, i).items == [Literal('%')] + ParseFormat(fmt, i + 1).items
    ensures ParseFormat(fmt, i).outcome == ParseFormat(fmt, i + 1).outcome
  {
    ParseFormatStep(fmt, i);
  }

  /** So the pair never prints one sign and is passed over, as printf has it. */
  lemma PercentPairIsNoEscape(fmt: string, i: nat)
    requires Ascii(fmt) && i + 1 < |fmt| && fmt[i] == '%' && fmt[i + 1] == '%'
    ensures var rest := ParseFormat(fmt, i + 2);
            ParseFormat(fmt, i) != Format([Literal('%')] + rest.items, rest.outcome)
  {
    hide ParseFormat, ParseDirective;
    ParseFormatStep(fmt, i);
    ParseFormatStep(fmt, i + 1);
    ParseFormatStep(fmt, i + 2);
    ParseDirectiveStep(fmt, i + 2, DEFAULTS);
    var here, rest := ParseFormat(fmt, i + 1), ParseFormat(fmt, i + 2);
    var read, meant := [Literal('%')] + here.items, [Literal('%')] + rest.items;
    assert read[1..] == here.items && meant[1..] == rest.items;
    if At(fmt, i + 2) == '%' {
      assert |here.items| == 1 + |rest.items|;
    } else if i + 2 < |fmt| && here.items != [] {
      assert rest.items[0] == Literal(fmt[i + 2]) && here.items[0].Directive?;
    }
  }

  lemma LiteralPercent(m: Machine)
    ensures RenderItem(m, Literal('%'), 0) == "%" && NextArg(m, Literal('%'), 0) == 0
  {
  }

  /** For example, "%%d" prints a percent sign and a number. */
  lemma PercentPairExample(m: Machine)
    requires m.word(0) == 5
    ensures Ascii("%%d") && Render(m, ParseFormat("%%d", 0).items, 0) == "%5"
  {
    hide ParseFormat, ParseDirective, RenderItem, Render;
    var fmt, item := "%%d", Directive(DEFAULTS, Number(true, 10, false));
    ParseFormatStep(fmt, 3);
    ParseDirectiveStep(fmt, 2, DEFAULTS);
    ParseFormatStep(fmt, 1);
    assert ParseFormat(fmt, 1).items == [item] + [];
    ParseFormatStep(fmt, 0);
    LiteralPercent(m);
    RenderCons(m, Literal('%'), [item] + [], 0);
    RenderCons(m, item, [], 0);
    OneDigit(m, 0);
  }

  lemma OneDigit(m: Machine, arg: nat)
    requires 0 <= m.word(arg) < 10
    ensures RenderItem(m, Directive(DEFAULTS, Number(true, 10, false)), arg) == ['0' + m.word(arg) as char]
  {
    var v := m.word(arg);
    assert Wrap32(v) == v;
    OneDigitText(v);
    hide Digits, Text, Parse, Printed, RenderNumber, Padded, Wrap32, Wrap64;
    PlainNumberReadsBack(v);
    PlainNumberItem(m, arg);
  }

  /** What "%d" renders. */
  lemma PlainNumberItem(m: Machine, arg: nat)
    ensures RenderItem(m, Directive(DEFAULTS, Number(true, 10, false)), arg)
         == RenderNumber(StyleOf(DEFAULTS), 0, Wrap32(m.word(arg)), 10, false)
  {
    hide RenderNumber, Wrap32, Wrap64;
  }

  lemma OneDigitText(v: nat)
    requires v < 10
    ensures Printed(v, 10, false) == ['0' + v as char]
  {
    assert Digits(v, 10) == [v];
    assert Text([v], false) == [] + [DigitChar(v, false)];
  }

  /** The items of "%d%d". */
  lemma TwoNumbers()
    ensures Ascii("%d%d")
    ensures var item := Directive(DEFAULTS, Number(true, 10, false));
            ParseFormat("%d%d", 0).items == [item] + [item]
  {
    hide RenderItem, ParseFormat, ParseDirective;
    var fmt, item := "%d%d", Directive(DEFAULTS, Number(true, 10, false));
    ParseFormatStep(fmt, 4);
    ParseDirectiveStep(fmt, 3, DEFAULTS);
    ParseFormatStep(fmt, 2);
    assert ParseFormat(fmt, 2).items == [item] + [];
    ParseDirectiveStep(fmt, 1, DEFAULTS);
    ParseFormatStep(fmt, 0);
  }

  /** "ll" is undone by its own second letter: the directive goes on as if only "l" was there. */
  lemma DoubleLengthIsLong(fmt: string, i: nat, flags: Flags)
    requires Ascii(fmt) && i + 1 < |fmt| && fmt[i] == 'l' && fmt[i + 1] == 'l'
    ensures ParseDirective(fmt, i, flags) == ParseDirective(fmt, i + 2, flags.(typeWidth := LongWidth))
  {
    hide ParseDirective;
    var long, longLong := flags.(typeWidth := LongWidth), flags.(typeWidth := LongLongWidth);
    ParseDirectiveStep(fmt, i, flags);
    ParseDirectiveStep(fmt, i + 1, longLong);
    if At(fmt, i + 2) == 'l' {
      ParseDirectiveStep(fmt, i + 2, long);
      ParseDirectiveStep(fmt, i + 2, longLong);
    }
  }

  /** When va_list is passed by value, two directives read the same argument: "%d%d" of 1 and 2
      prints 11. */
  lemma ByValueExample(m: Machine)
    requires m.word(0) == 1 && m.word(1) == 2
    ensures Ascii("%d%d")
    ensures Render(m.(byValue := true), ParseFormat("%d%d", 0).items, 0) == "11"
    ensures Render(m.(byValue := false), ParseFormat("%d%d", 0).items, 0) == "12"
  {
    hide ParseFormat, ParseDirective, RenderItem, Render;
    TwoNumbers();
    var item := Directive(DEFAULTS, Number(true, 10, false));
    assert [item] + [] == [item];
    var x, y := m.(byValue := true), m.(byValue := false);
    RenderCons(x, item, [item] + [], 0);
    RenderCons(x, item, [], 0);
    RenderCons(y, item, [item] + [], 0);
    RenderCons(y, item, [], 1);
    RenderCons(y, item, [], 2);
    OneDigit(x, 0);
    OneDigit(y, 0);
    OneDigit(y, 1);
    assert ['0' + 1 as char] == "1" && ['0' + 2 as char] == "2";
    assert NextArg(x, item, 0) == 0 && NextArg(y, item, 0) == 1;
    assert "1" + ("1" + "") == "11" && "1" + ("2" + "") == "12";
  }

  /** "hh" is undone by its own second letter: the directive goes on as if only "h" was there. */
  lemma DoubleShortIsShort(fmt: string, i: nat, flags: Flags)
    requires Ascii(fmt) && i + 1 < |fmt| && fmt[i] == 'h' && fmt[i + 1] == 'h'
    ensures ParseDirective(fmt, i, flags) == ParseDirective(fmt, i + 2, flags.(typeWidth := ShortWidth))
  {
    hide ParseDirective;
    var short, char_ := flags.(typeWidth := ShortWidth), flags.(typeWidth := CharWidth);
    ParseDirectiveStep(fmt, i, flags);
    ParseDirectiveStep(fmt, i + 1, char_);
    if At(fmt, i + 2) == 'h' {
      ParseDirectiveStep(fmt, i + 2, short);
      ParseDirectiveStep(fmt, i + 2, char_);
    }
  }

  /** What the length modifiers "hh" and "h" ask for: the value as a char or a short. */
  function Narrowed(signed: bool, w: TypeWidth, v: int): int
    requires w.CharWidth? || w.ShortWidth?
  {
    var n := if w.CharWidth? then 0x100 else 0x1_0000;
    if signed then (v + n / 2) % n - n / 2 else v % n
  }

  /** They do not narrow the argument. The number printed is the char or short exactly if the argument,
      as an int, is in its range. */
  lemma ShortIsNotNarrowed(m: Machine, signed: bool, w: TypeWidth, arg: nat)
    requires w.CharWidth? || w.ShortWidth?
    ensures var v, n := NumberAt(m, signed, IntWidth, arg), if w.CharWidth? then 0x100 else 0x1_0000;
            && NumberAt(m, signed, w, arg) == v
            && (v == Narrowed(signed, w, v) <==> if signed then -n / 2 <= v < n / 2 else 0 <= v < n)
  {
    hide Wrap32, Wrap64;
  }
}
