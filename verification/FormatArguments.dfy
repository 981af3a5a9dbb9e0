/** The cost of passing va_list by value: format_arg reads the arguments of every directive from
    the first one on (libk/kstring_format.c:354). */
module FormatArguments {
  import opened Numerals
  import opened FormatSpec
  import opened FormatProperties

  /** The number of items that take arguments. */
  function Directives(items: seq<Item>): nat {
    if items == [] then 0 else (if items[0].Directive? then 1 else 0) + Directives(items[1..])
  }

  /** With at most one directive nothing goes wrong. */
  lemma {:induction false} ByValueWithOneDirective(m: Machine, items: seq<Item>, arg: nat)
    requires Directives(items) <= 1
    ensures Render(m.(byValue := true), items, arg) == Render(m.(byValue := false), items, arg)
    decreases |items|
  {
    hide RenderItem, ArgWords;
    if items == [] {
    } else {
      ItemIgnoresPassing(m, items[0], arg);
      if items[0].Directive? {
        OnlyLiterals(m.(byValue := true), m.(byValue := false), items[1..], arg, arg + ArgWords(items[0]));
      } else {
        LiteralTakesNothing(items[0]);
        ByValueWithOneDirective(m, items[1..], arg);
      }
    }
  }

  lemma LiteralTakesNothing(item: Item)
    requires item.Literal?
    ensures ArgWords(item) == 0
  {
  }

  lemma ItemIgnoresPassing(m: Machine, item: Item, arg: nat)
    ensures RenderItem(m.(byValue := true), item, arg) == RenderItem(m.(byValue := false), item, arg)
  {
    hide Padded, RenderNumber;
  }

  lemma {:induction false} OnlyLiterals(m: Machine, n: Machine, items: seq<Item>, a: nat, b: nat)
    requires Directives(items) == 0
    ensures Render(m, items, a) == Render(n, items, b)
    decreases |items|
  {
    hide ArgWords;
    if items == [] {
    } else {
      OnlyLiterals(m, n, items[1..], NextArg(m, items[0], a), NextArg(n, items[0], b));
    }
  }

  // ---------- Two directives ----------

  /** A directive as the parser makes it. */
  predicate Numbered(item: Item) {
    item.Directive? ==>
      && (item.flags.width.FromArg? ==> item.flags.width.n < item.flags.stars)
      && (item.flags.precision.FromArg? ==> item.flags.precision.n < item.flags.stars)
      && (item.conversion.Number? ==> item.conversion.base <= 36)
  }

  lemma ModifiedStaysNumbered(flags: Flags, m: Modifier)
    requires Numbered(Directive(flags, Str))
    ensures Numbered(Directive(Modify(flags, m), Str))
  {
  }

  lemma {:induction false} DirectivesAreNumbered(fmt: string, i: nat, flags: Flags)
    requires Ascii(fmt) && Numbered(Directive(flags, Str))
    ensures var r := ParseDirective(fmt, i, flags); r.Done? ==> Numbered(r.item)
    decreases |fmt| - i
  {
    hide TokenAt, ParseDirective, Modify;
    ParseDirectiveStep(fmt, i, flags);
    match TokenAt(fmt, i)
    case Modifying(m, next) =>
      ModifiedStaysNumbered(flags, m);
      DirectivesAreNumbered(fmt, next, Modify(flags, m));
    case _ =>
      BasesAreSmall(fmt, i);
  }

  lemma BasesAreSmall(fmt: string, i: nat)
    requires Ascii(fmt)
    ensures var t := TokenAt(fmt, i); t.Converting? && t.conversion.Number? ==> t.conversion.base <= 36
  {
  }

  lemma {:induction false} ParsedAreNumbered(fmt: string, i: nat)
    requires Ascii(fmt)
    ensures forall k :: 0 <= k < |ParseFormat(fmt, i).items| ==> Numbered(ParseFormat(fmt, i).items[k])
    decreases |fmt| - i
  {
    ParseFormatStep(fmt, i);
    DirectivesAreNumbered(fmt, i + 1, DEFAULTS);
    hide ParseFormat, ParseDirective;
    if i >= |fmt| {
    } else {
      if !(fmt[i] == '%' && At(fmt, i + 1) != '%') {
        ParsedAreNumbered(fmt, i + 1);
      } else {
        match ParseDirective(fmt, i + 1, DEFAULTS)
        case Done(item, next) => ParsedAreNumbered(fmt, next);
        case _ =>
      }
    }
  }

  function TotalWords(items: seq<Item>): nat {
    if items == [] then 0 else ArgWords(items[0]) + TotalWords(items[1..])
  }

  /** A caller whose only argument word that is not zero is the last one. */
  function Telltale(words: nat): Machine {
    Machine(k => if k + 1 == words then 1 else 0, a => if a == 0 then "" else "a", false)
  }

  /** An item reads nothing but its own words. */
  lemma ItemReads(m: Machine, n: Machine, item: Item, a: nat, b: nat)
    requires Numbered(item) && m.text == n.text
    requires forall k: nat :: a <= k < a + ArgWords(item) ==> m.word(k) == n.word(k - a + b)
    ensures RenderItem(m, item, a) == RenderItem(n, item, b)
  {
    hide Padded, RenderNumber, Wrap64, Wrap32;
  }

  /** The last word of a directive shows in its text. */
  lemma LastWordShows(item: Item, words: nat, a: nat, b: nat)
    requires Numbered(item) && item.Directive?
    requires a + ArgWords(item) < words == b + ArgWords(item)
    ensures var m := Telltale(words); RenderItem(m, item, a) != RenderItem(m, item, b)
  {
    hide Padded, RenderNumber, Wrap64;
    var m, flags := Telltale(words), item.flags;
    var width := AmountOf(m, flags.width, a);
    assert width == AmountOf(m, flags.width, b);
    match item.conversion
    case Number(signed, base, upper) =>
      var v := NumberAt(m, signed, flags.typeWidth, b + flags.stars);
      assert Wrap64(0) == 0 && Wrap64(WORD) == WORD by { WrapSmall(0); WrapSmall(WORD); }
      assert NumberAt(m, signed, flags.typeWidth, a + flags.stars) == 0;
      NonzeroShows(StyleOf(flags), width, v, base, upper);
    case Character =>
      PaddedDiffer("", [1 as char], 1, 1, width, flags.leftPad);
    case Str =>
      assert ""[..0] == "" && "a"[..1] == "a";
      PaddedDiffer("", "a", 0, 1, width, flags.leftPad);
    case Pointer =>
      NonzeroShows(PointerStyle(flags), 8, 1, 16, true);
  }

  lemma PaddedDiffer(s: string, t: string, n: nat, k: nat, width: int, leftPad: bool)
    requires s == "" && |t| == 1 && t[0] != ' ' && n <= k <= 1
    ensures Padded(s, n, width, leftPad, ' ') != Padded(t, k, width, leftPad, ' ')
  {
    var x, y := Padded(s, n, width, leftPad, ' '), Padded(t, k, width, leftPad, ' ');
    if |x| == |y| {
      var i := if leftPad then |y| - 1 else 0;
      assert y[i] == t[0] && x[i] == ' ';
    }
  }

  /** The first digit of a positive number can be neither a zero nor padding. */
  lemma FirstDigit(v: nat, base: Base, upper: bool)
    requires 0 < v < UINTMAX_LIMIT && base <= 36
    ensures TakenDigits(v, base, NUMBER_MAX) == Digits(v, base)
    ensures Text(Digits(v, base), upper)[0] != '0' && Text(Digits(v, base), upper)[0] != ' '
  {
    hide Digits, TakenDigits;
    DigitsFit(v, base);
    NoLeadingZero(v, base);
  }

  lemma ZeroField(base: Base, upper: bool)
    ensures TakenDigits(0, base, NUMBER_MAX) == [0] && Text([0], upper) == "0"
  {
    assert Digits(0, base) == [0];
  }

  lemma FieldsDiffer(t: string, width: int, leftPad: bool, c: char)
    requires |t| > 0 && t[0] != '0' && t[0] != c
    ensures Padded("0", 1, width, leftPad, c) != Padded(t, |t|, width, leftPad, c)
  {
    var x, y := Padded("0", 1, width, leftPad, c), Padded(t, |t|, width, leftPad, c);
    if |x| == |y| {
      var i := if leftPad then |y| - |t| else 0;
      assert y[i] == t[0];
    }
  }

  lemma NonzeroShows(style: NumberStyle, width: int, v: nat, base: Base, upper: bool)
    requires 0 < v < UINTMAX_LIMIT && base <= 36
    ensures RenderNumber(style, width, 0, base, upper) != RenderNumber(style, width, v, base, upper)
  {
    hide Digits, TakenDigits, Text, Padded;
    var c, t := if style.zeroPad then '0' else ' ', Text(Digits(v, base), upper);
    FirstDigit(v, base, upper);
    ZeroField(base, upper);
    FieldsDiffer(t, width, style.leftPad, c);
    SameBefore(SignText(false, style.sign) + PrefixText(style.prefix, base, upper),
      Padded("0", 1, width, style.leftPad, c), Padded(t, |t|, width, style.leftPad, c));
  }

  lemma SameBefore(s: string, x: string, y: string)
    requires x != y
    ensures s + x != s + y
  {
    assert (s + x)[|s|..] == x && (s + y)[|s|..] == y;
  }

  lemma SameAfter(s: string, x: string, y: string)
    requires x != y
    ensures x + s != y + s
  {
    if |x| == |y| {
      assert (x + s)[..|x|] == x && (y + s)[..|y|] == y;
    }
  }

  /** Once a directive has been met, the two ways of passing part at the last directive. */
  lemma {:induction false} PartAtTheLast(items: seq<Item>, words: nat, arg: nat)
    requires forall k :: 0 <= k < |items| ==> Numbered(items[k])
    requires arg > 0 && arg + TotalWords(items) == words && Directives(items) > 0
    ensures var m := Telltale(words);
            Render(m.(byValue := true), items, 0) != Render(m.(byValue := false), items, arg)
    decreases |items|
  {
    hide RenderItem, ArgWords, Numbered, ValidMachine;
    var m := Telltale(words);
    var x, y := m.(byValue := true), m.(byValue := false);
    var item, rest := items[0], items[1..];
    var after := arg + ArgWords(item);
    ItemIgnoresPassing(m, item, 0);
    if item.Literal? {
      LiteralTakesNothing(item);
      PartAtTheLast(rest, words, arg);
      ItemReads(x, y, item, 0, arg);
      SameBefore(RenderItem(y, item, arg), Render(x, rest, 0), Render(y, rest, arg));
    } else if Directives(rest) > 0 {
      WordsOfDirectives(rest);
      ItemReads(x, y, item, 0, arg);
      PartAtTheLast(rest, words, after);
      SameBefore(RenderItem(y, item, arg), Render(x, rest, 0), Render(y, rest, after));
    } else {
      WordsOfDirectives(rest);
      LastWordShows(item, words, 0, arg);
      OnlyLiterals(x, y, rest, 0, after);
      SameAfter(Render(y, rest, after), RenderItem(x, item, 0), RenderItem(y, item, arg));
    }
  }

  lemma {:induction false} WordsOfDirectives(items: seq<Item>)
    ensures TotalWords(items) > 0 <==> Directives(items) > 0
  {
    if items == [] {
    } else {
      WordsOfDirectives(items[1..]);
    }
  }

  lemma {:induction false} PartAfterTheFirst(items: seq<Item>)
    requires forall k :: 0 <= k < |items| ==> Numbered(items[k])
    requires Directives(items) > 1
    ensures var m := Telltale(TotalWords(items));
            Render(m.(byValue := true), items, 0) != Render(m.(byValue := false), items, 0)
  {
    hide RenderItem, ArgWords, Numbered;
    var item, rest, words := items[0], items[1..], TotalWords(items);
    var m := Telltale(words);
    var x, y := m.(byValue := true), m.(byValue := false);
    ItemIgnoresPassing(m, item, 0);
    if item.Literal? {
      LiteralTakesNothing(item);
      PartAfterTheFirst(rest);
      SameBefore(RenderItem(y, item, 0), Render(x, rest, 0), Render(y, rest, 0));
    } else {
      DirectivesTakeWords(item);
      PartAtTheLast(rest, words, ArgWords(item));
      SameBefore(RenderItem(y, item, 0), Render(x, rest, 0), Render(y, rest, ArgWords(item)));
    }
  }

  lemma DirectivesTakeWords(item: Item)
    requires item.Directive?
    ensures ArgWords(item) > 0
  {
  }

  /** A format prints what is intended for all arguments exactly if it holds at most one directive. */
  lemma ByValueIsIntended(fmt: string)
    requires Ascii(fmt)
    ensures var items := ParseFormat(fmt, 0).items;
            Directives(items) <= 1 <==>
              forall m | ValidMachine(m) :: Render(m.(byValue := true), items, 0) == Render(m.(byValue := false), items, 0)
  {
    var items := ParseFormat(fmt, 0).items;
    if Directives(items) <= 1 {
      forall m | ValidMachine(m)
        ensures Render(m.(byValue := true), items, 0) == Render(m.(byValue := false), items, 0)
      {
        ByValueWithOneDirective(m, items, 0);
      }
    } else {
      ParsedAreNumbered(fmt, 0);
      PartAfterTheFirst(items);
      assert ValidMachine(Telltale(TotalWords(items)));
    }
  }
}
