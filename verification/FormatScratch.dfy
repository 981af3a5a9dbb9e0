/** The static scratch buffer of format_number: the digits of earlier numbers stay in it
    (libk/kstring_format.c:166-171). */
module FormatScratch {
  import opened Numerals
  import opened KString
  import opened FormatSpec
  import opened FormatBuffer

  /** A number to print: its magnitude, base and letter case. */
  datatype Numeral = Numeral(value: nat, base: nat, upper: bool)

  predicate Printable(n: Numeral) {
    n.value < UINTMAX_LIMIT && 2 <= n.base <= 36
  }

  predicate AllPrintable(ns: seq<Numeral>) {
    forall i :: 0 <= i < |ns| ==> Printable(ns[i])
  }

  function DigitsIn(n: Numeral): (ds: seq<nat>)
    requires Printable(n)
    ensures 0 < |ds| <= NUMBER_MAX && forall i :: 0 <= i < |ds| ==> ds[i] < 36
  {
    DigitsOf(n.value, n.base)
  }

  /** The digits that should be printed. */
  function TextOf(n: Numeral): (t: string)
    requires Printable(n)
    ensures 0 < |t| <= NUMBER_MAX
  {
    Text(DigitsIn(n), n.upper)
  }

  lemma TextHasNoNul(n: Numeral)
    requires Printable(n)
    ensures NUL !in TextOf(n)
  {
    TextIsAscii(DigitsIn(n), n.upper);
  }

  /** The scratch buffer, with the byte behind it, after a number was formatted into it. */
  function Used(scratch: FormatBuffer.Scratch, n: Numeral): FormatBuffer.Scratch
    requires Printable(n)
  {
    UsedBy(scratch, DigitsIn(n), n.upper)
  }

  /** The characters that do_string takes from it. */
  function Shown(scratch: FormatBuffer.Scratch, n: Numeral): (t: string)
    requires Printable(n)
    ensures |t| == |TextOf(n)|
  {
    ShownBy(scratch, DigitsIn(n), n.upper)
  }

  /** The digits settle into text exactly if the byte behind them is NUL or every digit is that byte. */
  lemma SettledNeedsTerminator(ds: seq<nat>, upper: bool, x: char)
    requires |ds| > 0 && forall i :: 0 <= i < |ds| ==> ds[i] < 36
    ensures Settled(ds, upper, x)[..|ds|] == Text(ds, upper)
       <==> x == NUL || forall i :: 0 <= i < |ds| ==> Text(ds, upper)[i] == x
  {
    hide Settled;
    StaleByte(ds, upper, x);
    var t := Text(ds, upper);
    if x == NUL {
      assert (t + [NUL])[..|t|] == t;
    } else {
      ShiftedIsSame(t, x);
    }
  }

  // ---------- Runs of numbers ----------

  /** The scratch buffer after a run of numbers, all NULs at first. */
  function Scratch(ns: seq<Numeral>): FormatBuffer.Scratch
    requires AllPrintable(ns)
  {
    if ns == [] then Zeroed() else Used(Scratch(ns[..|ns| - 1]), ns[|ns| - 1])
  }

  /** The greatest number of digits printed so far. */
  function Longest(ns: seq<Numeral>): (k: nat)
    requires AllPrintable(ns)
    ensures k <= NUMBER_MAX
  {
    if ns == [] then 0
    else
      var k, n := Longest(ns[..|ns| - 1]), |TextOf(ns[|ns| - 1])|;
      if n < k then k else n
  }

  ghost predicate FilledTo(scratch: seq<char>, k: nat) {
    forall i :: 0 <= i < |scratch| ==> (scratch[i] == NUL <==> i >= k)
  }

  lemma UsedForm(scratch: FormatBuffer.Scratch, n: Numeral)
    requires Printable(n)
    ensures var t := TextOf(n); var x := scratch[|t|];
            Used(scratch, n) == (if x == NUL then t + [NUL] else [x] + t) + scratch[|t| + 1..]
  {
    hide Settled, Text, DigitsIn;
    StaleByte(DigitsIn(n), n.upper, scratch[|TextOf(n)|]);
  }

  lemma UsedFills(scratch: FormatBuffer.Scratch, n: Numeral, k: nat)
    requires Printable(n) && FilledTo(scratch, k)
    ensures FilledTo(Used(scratch, n), if |TextOf(n)| < k then k else |TextOf(n)|)
  {
    hide Used, TextOf;
    UsedForm(scratch, n);
    TextHasNoNul(n);
  }

  /** The buffer is filled as far as the longest number printed so far. */
  lemma {:induction false} ScratchFilled(ns: seq<Numeral>)
    requires AllPrintable(ns)
    ensures FilledTo(Scratch(ns), Longest(ns))
  {
    hide Used, TextOf, FilledTo;
    if ns == [] {
      NothingFilled();
    } else {
      ScratchFilled(ns[..|ns| - 1]);
      UsedFills(Scratch(ns[..|ns| - 1]), ns[|ns| - 1], Longest(ns[..|ns| - 1]));
    }
  }

  lemma NothingFilled()
    ensures FilledTo(Scratch([]), 0)
  {
  }

  /** What earlier numbers left k places from the start: the digit there of the last number that
      reached so far, or the digit before it if that number was itself printed wrong and shifted. */
  function LeftAt(ns: seq<Numeral>, k: nat): char
    requires AllPrintable(ns) && 0 < k <= NUMBER_MAX
  {
    if ns == [] then NUL
    else
      var before, t := ns[..|ns| - 1], TextOf(ns[|ns| - 1]);
      if k > |t| then LeftAt(before, k)
      else if |t| < Longest(before) then t[k - 1]
      else if k < |t| then t[k] else NUL
  }

  lemma {:induction false} LeftIs(ns: seq<Numeral>, k: nat)
    requires AllPrintable(ns) && 0 < k <= NUMBER_MAX
    ensures Scratch(ns)[k] == LeftAt(ns, k)
  {
    hide Used, TextOf;
    if ns == [] {
    } else {
      var before, n := ns[..|ns| - 1], ns[|ns| - 1];
      LeftIs(before, k);
      ScratchFilled(before);
      UsedForm(Scratch(before), n);
    }
  }

  lemma ShownForm(scratch: FormatBuffer.Scratch, n: Numeral)
    requires Printable(n)
    ensures var t := TextOf(n); var x := scratch[|t|];
            Shown(scratch, n) == if x == NUL then t else ([x] + t)[..|t|]
  {
    hide Settled, Text, DigitsIn;
    var t := TextOf(n);
    var x := scratch[|t|];
    StaleByte(DigitsIn(n), n.upper, x);
    assert ((if x == NUL then t + [NUL] else [x] + t) + scratch[|t| + 1..])[..|t|]
        == (if x == NUL then t else ([x] + t)[..|t|]);
  }

  /** After any run of numbers the next one is printed right exactly if it has at least as many digits
      as the longest of them, or all its digits equal the one left behind them. Otherwise that one
      comes out in front and the last digit is missing. */
  lemma PrintedRight(ns: seq<Numeral>, n: Numeral)
    requires AllPrintable(ns) && Printable(n)
    ensures Shown(Scratch(ns), n) == TextOf(n)
       <==> |TextOf(n)| >= Longest(ns) || forall i :: 0 <= i < |TextOf(n)| ==> TextOf(n)[i] == LeftAt(ns, |TextOf(n)|)
    ensures |TextOf(n)| < Longest(ns) ==> Shown(Scratch(ns), n) == ([LeftAt(ns, |TextOf(n)|)] + TextOf(n))[..|TextOf(n)|]
  {
    hide Shown, Used, Scratch, TextOf, Longest, LeftAt;
    ScratchFilled(ns);
    LeftIs(ns, |TextOf(n)|);
    ShownForm(Scratch(ns), n);
    if |TextOf(n)| < Longest(ns) {
      ShiftedIsSame(TextOf(n), Scratch(ns)[|TextOf(n)|]);
    }
  }

  /** The second of two numbers is printed right exactly if it is not shorter, or consists of the
      digit of the first one that stands behind its own. */
  lemma SecondPrintedRight(a: Numeral, b: Numeral)
    requires Printable(a) && Printable(b)
    ensures Shown(Scratch([a]), b) == TextOf(b)
       <==> |TextOf(b)| >= |TextOf(a)| || forall i :: 0 <= i < |TextOf(b)| ==> TextOf(b)[i] == TextOf(a)[|TextOf(b)|]
  {
    hide Used, TextOf;
    PrintedRight([a], b);
    OneNumber(a, |TextOf(b)|);
  }

  lemma OneNumber(a: Numeral, k: nat)
    requires Printable(a) && 0 < k <= NUMBER_MAX
    ensures Longest([a]) == |TextOf(a)| && LeftAt([a], k) == if k < |TextOf(a)| then TextOf(a)[k] else NUL
  {
    hide TextOf;
    assert [a][..0] == [];
  }

  /** For example, after 100 the number 5 is printed as 0. */
  lemma FiveAfterHundred()
    ensures TextOf(Numeral(100, 10, false)) == "100" && TextOf(Numeral(5, 10, false)) == "5"
    ensures Shown(Scratch([Numeral(100, 10, false)]), Numeral(5, 10, false)) == "0"
  {
    var a, b := Numeral(100, 10, false), Numeral(5, 10, false);
    HundredAndFive();
    hide Used, TextOf, Scratch, Longest, LeftAt;
    PrintedRight([a], b);
    OneNumber(a, 1);
    assert "100"[1] == '0';
    assert (['0'] + "5")[..1] == "0";
  }

  lemma HundredAndFive()
    ensures TextOf(Numeral(100, 10, false)) == "100" && TextOf(Numeral(5, 10, false)) == "5"
  {
    assert Digits(1, 10) == [1];
    assert Digits(10, 10) == [0, 1];
    assert Digits(100, 10) == [0, 0, 1];
    assert Digits(5, 10) == [5];
    assert Text([], false) == "";
    assert Text([1], false) == "1";
    assert [0, 1][1..] == [1] && [0, 0, 1][1..] == [0, 1] && [5][1..] == [];
    assert Text([0, 1], false) == "10";
    assert Text([0, 0, 1], false) == "100";
    assert Text([5], false) == "5";
  }

  // ---------- Whole formats ----------

  /** The number that an item prints. */
  function NumeralOf(m: Machine, item: Item, arg: nat): (n: Numeral)
    requires ValidMachine(m) && PrintsNumber(item)
    ensures Printable(n)
  {
    var v := ValueAt(m, item, arg);
    Numeral(if v < 0 then -v else v, BaseOf(item), UpperOf(item))
  }

  /** After the numbers ns the number n comes out right. */
  predicate ComesOutRight(ns: seq<Numeral>, n: Numeral)
    requires AllPrintable(ns) && Printable(n)
  {
    |TextOf(n)| >= Longest(ns) || forall i :: 0 <= i < |TextOf(n)| ==> TextOf(n)[i] == LeftAt(ns, |TextOf(n)|)
  }

  /** The numbers that items print. */
  function NumbersOf(m: Machine, items: seq<Item>, arg: nat): (ns: seq<Numeral>)
    requires ValidMachine(m)
    ensures AllPrintable(ns)
    decreases |items|
  {
    if items == [] then []
    else
      var rest := NumbersOf(m, items[1..], NextArg(m, items[0], arg));
      if PrintsNumber(items[0]) then [NumeralOf(m, items[0], arg)] + rest else rest
  }

  /** All the numbers of a run come out right, after the numbers ns. */
  predicate AllRight(ns: seq<Numeral>, run: seq<Numeral>)
    requires AllPrintable(ns) && AllPrintable(run)
    decreases |run|
  {
    run == [] || (ComesOutRight(ns, run[0]) && AllRight(ns + [run[0]], run[1..]))
  }

  lemma NumberFromIsRight(s: FormatBuffer.Scratch, style: NumberStyle, width: int, v: int, base: Base, upper: bool)
    ensures RenderNumberFrom(s, style, width, v, base, upper) == RenderNumber(style, width, v, base, upper)
       <==> ShownBy(s, DigitsOf(v, base), upper) == Text(DigitsOf(v, base), upper)
  {
    hide DigitsOf, UsedBy, ShownBy, Text, Padded;
    var ds := DigitsOf(v, base);
    var x, y, c := ShownBy(s, ds, upper), Text(ds, upper), if style.zeroPad then '0' else ' ';
    var before := SignText(v < 0, style.sign) + PrefixText(style.prefix, base, upper);
    assert RenderNumber(style, width, v, base, upper) == before + Padded(y, |y|, width, style.leftPad, c) by {
      DigitsAreTaken(v, base);
    }
    SameFields(x, y, width, style.leftPad, c);
    SameFront(before, Padded(x, |x|, width, style.leftPad, c), before, Padded(y, |y|, width, style.leftPad, c));
  }

  lemma DigitsAreTaken(v: int, base: nat)
    requires base >= 2
    ensures DigitsOf(v, base) == TakenDigits(if v < 0 then -v else v, base, NUMBER_MAX)
  {
  }

  lemma SameFields(x: string, y: string, width: int, leftPad: bool, c: char)
    requires |x| == |y|
    ensures Padded(x, |x|, width, leftPad, c) == Padded(y, |y|, width, leftPad, c) <==> x == y
  {
    var a, b := Padded(x, |x|, width, leftPad, c), Padded(y, |y|, width, leftPad, c);
    var k := |a| - |x|;
    if leftPad {
      assert a[k..] == x && b[k..] == y;
    } else {
      assert a[..|x|] == x && b[..|y|] == y;
    }
  }

  /** Texts whose fronts are equally long are equal exactly if their parts are. */
  lemma SameFront(a: string, b: string, c: string, d: string)
    requires |a| == |c|
    ensures a + b == c + d <==> a == c && b == d
  {
    assert (a + b)[..|a|] == a && (a + b)[|a|..] == b;
    assert (c + d)[..|c|] == c && (c + d)[|c|..] == d;
  }

  function StyleFor(item: Item): NumberStyle
    requires PrintsNumber(item)
  {
    if item.conversion.Number? then StyleOf(item.flags) else PointerStyle(item.flags)
  }

  function WidthFor(m: Machine, item: Item, arg: nat): int
    requires PrintsNumber(item)
  {
    if item.conversion.Number? then AmountOf(m, item.flags.width, arg) else 8
  }

  lemma ItemIsNumber(m: Machine, item: Item, arg: nat)
    requires PrintsNumber(item)
    ensures RenderItem(m, item, arg) ==
              RenderNumber(StyleFor(item), WidthFor(m, item, arg), ValueAt(m, item, arg), BaseOf(item), UpperOf(item))
  {
    hide RenderNumber;
  }

  lemma ItemFromIsNumber(m: Machine, item: Item, arg: nat, s: FormatBuffer.Scratch)
    requires PrintsNumber(item)
    ensures RenderItemFrom(m, item, arg, s) ==
              RenderNumberFrom(s, StyleFor(item), WidthFor(m, item, arg), ValueAt(m, item, arg), BaseOf(item), UpperOf(item))
  {
    hide RenderNumberFrom;
  }

  function DigitsAt(m: Machine, item: Item, arg: nat): (ds: seq<nat>)
    requires PrintsNumber(item)
    ensures 0 < |ds| <= NUMBER_MAX && forall i :: 0 <= i < |ds| ==> ds[i] < 36
  {
    DigitsOf(ValueAt(m, item, arg), BaseOf(item))
  }

  lemma SameDigits(m: Machine, item: Item, arg: nat)
    requires ValidMachine(m) && PrintsNumber(item)
    ensures DigitsIn(NumeralOf(m, item, arg)) == DigitsAt(m, item, arg) && NumeralOf(m, item, arg).upper == UpperOf(item)
  {
    var v := ValueAt(m, item, arg);
    SameNumber(v, BaseOf(item));
    hide DigitsOf, ValueAt, BaseOf, UpperOf;
  }

  /** The number that an item prints is printed through the scratch buffer. */
  lemma ItemUses(m: Machine, item: Item, arg: nat, s: FormatBuffer.Scratch)
    requires ValidMachine(m) && PrintsNumber(item)
    ensures ShownBy(s, DigitsAt(m, item, arg), UpperOf(item)) == Shown(s, NumeralOf(m, item, arg))
    ensures Text(DigitsAt(m, item, arg), UpperOf(item)) == TextOf(NumeralOf(m, item, arg))
    ensures ScratchFrom(m, item, arg, s, false) == Used(s, NumeralOf(m, item, arg))
  {
    SameDigits(m, item, arg);
    hide NumeralOf, DigitsIn, DigitsOf, UsedBy, ShownBy, Text, ValueAt, BaseOf, UpperOf;
  }

  lemma ScratchGrows(ns: seq<Numeral>, n: Numeral)
    requires AllPrintable(ns) && Printable(n)
    ensures Scratch(ns + [n]) == Used(Scratch(ns), n)
  {
    hide Used;
    assert (ns + [n])[..|ns|] == ns;
  }

  lemma NumberItemIsRight(m: Machine, item: Item, arg: nat, ns: seq<Numeral>)
    requires ValidMachine(m) && AllPrintable(ns) && PrintsNumber(item)
    ensures |RenderItemFrom(m, item, arg, Scratch(ns))| == |RenderItem(m, item, arg)|
    ensures RenderItemFrom(m, item, arg, Scratch(ns)) == RenderItem(m, item, arg)
       <==> Shown(Scratch(ns), NumeralOf(m, item, arg)) == TextOf(NumeralOf(m, item, arg))
  {
    hide RenderItem, RenderItemFrom, RenderNumber, RenderNumberFrom, NumeralOf, ValueAt, StyleFor, WidthFor, BaseOf,
         UpperOf, Shown, TextOf, Scratch, DigitsOf, ShownBy, Text;
    var s := Scratch(ns);
    ItemIsNumber(m, item, arg);
    ItemFromIsNumber(m, item, arg, s);
    ItemUses(m, item, arg, s);
    NumberFromIsRight(s, StyleFor(item), WidthFor(m, item, arg), ValueAt(m, item, arg), BaseOf(item), UpperOf(item));
    SameLength(s, StyleFor(item), WidthFor(m, item, arg), ValueAt(m, item, arg), BaseOf(item), UpperOf(item));
  }

  /** One item, after the numbers ns: its text has the right length, and is right exactly if the number
      that it prints, if any, comes out right. */
  lemma ItemFromIsRight(m: Machine, item: Item, arg: nat, ns: seq<Numeral>)
    requires ValidMachine(m) && AllPrintable(ns)
    ensures |RenderItemFrom(m, item, arg, Scratch(ns))| == |RenderItem(m, item, arg)|
    ensures RenderItemFrom(m, item, arg, Scratch(ns)) == RenderItem(m, item, arg)
       <==> (PrintsNumber(item) ==> ComesOutRight(ns, NumeralOf(m, item, arg)))
    ensures ScratchFrom(m, item, arg, Scratch(ns), false)
         == Scratch(if PrintsNumber(item) then ns + [NumeralOf(m, item, arg)] else ns)
  {
    hide RenderItem, NumeralOf, Shown, Used, TextOf, Scratch, Longest, LeftAt;
    if PrintsNumber(item) {
      hide RenderItemFrom, ScratchFrom;
      NumberItemIsRight(m, item, arg, ns);
      PrintedRight(ns, NumeralOf(m, item, arg));
      ItemUses(m, item, arg, Scratch(ns));
      ScratchGrows(ns, NumeralOf(m, item, arg));
    }
  }

  lemma SameNumber(v: int, base: nat)
    requires base >= 2
    ensures DigitsOf(if v < 0 then -v else v, base) == DigitsOf(v, base)
  {
  }

  /** With the static buffer as it is, after the numbers ns, kstring_vformat writes what is intended
      exactly if all the numbers of the format come out right, one after the other. */
  lemma {:induction false} StaticIsIntended(m: Machine, items: seq<Item>, arg: nat, ns: seq<Numeral>)
    requires ValidMachine(m) && AllPrintable(ns)
    ensures |RenderFrom(m, items, arg, Scratch(ns), false)| == |Render(m, items, arg)|
    ensures RenderFrom(m, items, arg, Scratch(ns), false) == Render(m, items, arg) <==> AllRight(ns, NumbersOf(m, items, arg))
    ensures LeftFrom(m, items, arg, Scratch(ns), false) == Scratch(ns + NumbersOf(m, items, arg))
    decreases |items|
  {
    hide RenderItemFrom, RenderItem, ScratchFrom, Scratch, ComesOutRight, NumeralOf, PrintsNumber;
    if items == [] {
      assert ns + [] == ns;
    } else {
      var item, rest, next := items[0], items[1..], NextArg(m, items[0], arg);
      ItemFromIsRight(m, item, arg, ns);
      var after := if PrintsNumber(item) then ns + [NumeralOf(m, item, arg)] else ns;
      StaticIsIntended(m, rest, next, after);
      SameFront(RenderItemFrom(m, item, arg, Scratch(ns)), RenderFrom(m, rest, next, Scratch(after), false),
                RenderItem(m, item, arg), Render(m, rest, next));
      if PrintsNumber(item) {
        var run := NumbersOf(m, rest, next);
        assert ([NumeralOf(m, item, arg)] + run)[1..] == run;
        assert ns + ([NumeralOf(m, item, arg)] + run) == after + run;
      }
    }
  }
}
