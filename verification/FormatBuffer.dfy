/** Rendering by way of the scratch buffer of format_number (libk/kstring_format.c:166-171). */
module FormatBuffer {
  import opened Numerals
  import opened KString
  import opened FormatSpec

  /** The digits' buffer with the byte behind it. */
  const SCRATCH_SIZE: nat := NUMBER_MAX + 1

  function Zeroed(): (s: seq<char>)
    ensures |s| == SCRATCH_SIZE
  {
    seq(SCRATCH_SIZE, _ => NUL)
  }

  type Scratch = s: seq<char> | |s| == SCRATCH_SIZE witness Zeroed()

  /** The digits printed of a number. */
  function DigitsOf(v: int, base: nat): (ds: seq<nat>)
    requires base >= 2
    ensures 0 < |ds| <= NUMBER_MAX
    ensures forall i :: 0 <= i < |ds| ==> ds[i] < base
  {
    var u: nat := if v < 0 then -v else v;
    TakenIsPrefix(u, base, NUMBER_MAX);
    TakenDigits(u, base, NUMBER_MAX)
  }

  /** The scratch buffer after digits were formatted into it. */
  function UsedBy(s: Scratch, ds: seq<nat>, upper: bool): Scratch
    requires 0 < |ds| <= NUMBER_MAX
  {
    Settled(ds, upper, s[|ds|]) + s[|ds| + 1..]
  }

  /** The characters that do_string takes from it. */
  function ShownBy(s: Scratch, ds: seq<nat>, upper: bool): (t: string)
    requires 0 < |ds| <= NUMBER_MAX
    ensures |t| == |ds|
  {
    UsedBy(s, ds, upper)[..|ds|]
  }

  function RenderNumberFrom(s: Scratch, style: NumberStyle, width: int, v: int, base: Base, upper: bool): string {
    var shown := ShownBy(s, DigitsOf(v, base), upper);
    SignText(v < 0, style.sign) + PrefixText(style.prefix, base, upper)
      + Padded(shown, |shown|, width, style.leftPad, if style.zeroPad then '0' else ' ')
  }

  /** The number that a directive prints. */
  function ValueAt(m: Machine, item: Item, arg: nat): int
    requires item.Directive?
  {
    var value := arg + item.flags.stars;
    match item.conversion
    case Number(signed, _, _) => NumberAt(m, signed, item.flags.typeWidth, value)
    case _ => NumberAt(m, false, LongWidth, value)
  }

  predicate PrintsNumber(item: Item) {
    item.Directive? && (item.conversion.Number? || item.conversion.Pointer?)
  }

  function BaseOf(item: Item): Base
    requires PrintsNumber(item)
  {
    if item.conversion.Number? then item.conversion.base else 16
  }

  function UpperOf(item: Item): bool
    requires PrintsNumber(item)
  {
    if item.conversion.Number? then item.conversion.upper else true
  }

  /** What an item prints with what is in the scratch buffer. */
  function RenderItemFrom(m: Machine, item: Item, arg: nat, s: Scratch): string {
    if !PrintsNumber(item) then RenderItem(m, item, arg)
    else if item.conversion.Number? then
      RenderNumberFrom(s, StyleOf(item.flags), AmountOf(m, item.flags.width, arg), ValueAt(m, item, arg),
                       BaseOf(item), UpperOf(item))
    else RenderNumberFrom(s, PointerStyle(item.flags), 8, ValueAt(m, item, arg), BaseOf(item), UpperOf(item))
  }

  /** What it leaves in the scratch buffer; one that is cleared for every number is blank again. */
  function ScratchFrom(m: Machine, item: Item, arg: nat, s: Scratch, clear: bool): Scratch {
    if clear then Zeroed()
    else if PrintsNumber(item) then UsedBy(s, DigitsOf(ValueAt(m, item, arg), BaseOf(item)), UpperOf(item))
    else s
  }

  /** Rendering with one scratch buffer for all items. */
  function RenderFrom(m: Machine, items: seq<Item>, arg: nat, s: Scratch, clear: bool): string
    decreases |items|
  {
    if items == [] then ""
    else
      RenderItemFrom(m, items[0], arg, s)
        + RenderFrom(m, items[1..], NextArg(m, items[0], arg), ScratchFrom(m, items[0], arg, s, clear), clear)
  }

  /** What all items leave in the scratch buffer. */
  function LeftFrom(m: Machine, items: seq<Item>, arg: nat, s: Scratch, clear: bool): Scratch
    decreases |items|
  {
    if items == [] then s
    else LeftFrom(m, items[1..], NextArg(m, items[0], arg), ScratchFrom(m, items[0], arg, s, clear), clear)
  }

  lemma {:induction false} LeftFromCons(m: Machine, item: Item, items: seq<Item>, arg: nat, s: Scratch, clear: bool)
    ensures LeftFrom(m, [item] + items, arg, s, clear) ==
              LeftFrom(m, items, NextArg(m, item, arg), ScratchFrom(m, item, arg, s, clear), clear)
    ensures LeftFrom(m, [], arg, s, clear) == s
  {
    var all := [item] + items;
    assert all[1..] == items && all[0] == item;
  }

  lemma {:induction false} RenderFromCons(m: Machine, item: Item, items: seq<Item>, arg: nat, s: Scratch, clear: bool)
    ensures RenderFrom(m, [item] + items, arg, s, clear) ==
              RenderItemFrom(m, item, arg, s)
                + RenderFrom(m, items, NextArg(m, item, arg), ScratchFrom(m, item, arg, s, clear), clear)
    ensures forall a: nat, t: Scratch :: RenderFrom(m, [], a, t, clear) == ""
  {
    var all := [item] + items;
    assert all[1..] == items && all[0] == item;
  }

  /** A byte that is not NUL behind the digits comes out in front of them and pushes the last digit
      out. */
  lemma StaleByte(ds: seq<nat>, upper: bool, x: char)
    requires |ds| > 0 && forall i :: 0 <= i < |ds| ==> ds[i] < 36
    ensures x == NUL ==> Settled(ds, upper, x) == Text(ds, upper) + [NUL]
    ensures x != NUL ==> Settled(ds, upper, x) == [x] + Text(ds, upper)
  {
    var t := Text(ds, upper);
    TextIsAscii(ds, upper);
    assert Reversed(t)[0] == t[|t| - 1];
    hide Trimmed, Reversed;
    ReversedText(t);
    TurnedRound(Reversed(t), x);
    ReversedTwice(t);
  }

  lemma ReversedText(t: string)
    requires NUL !in t
    ensures NUL !in Reversed(t)
  {
  }

  // ---------- A blank buffer ----------

  /** What is in the buffer changes no lengths. */
  lemma SameLength(s: Scratch, style: NumberStyle, width: int, v: int, base: Base, upper: bool)
    ensures |RenderNumberFrom(s, style, width, v, base, upper)| == |RenderNumber(style, width, v, base, upper)|
  {
    hide UsedBy, Text;
  }

  /** From a blank buffer digits come out as they should. */
  lemma BlankShowsDigits(ds: seq<nat>, upper: bool)
    requires 0 < |ds| <= NUMBER_MAX && forall i :: 0 <= i < |ds| ==> ds[i] < 36
    ensures ShownBy(Zeroed(), ds, upper) == Text(ds, upper)
  {
    SettledIsText(ds, upper);
  }

  lemma BlankShowsNumber(style: NumberStyle, width: int, v: int, base: Base, upper: bool)
    ensures RenderNumberFrom(Zeroed(), style, width, v, base, upper) == RenderNumber(style, width, v, base, upper)
  {
    BlankShowsDigits(DigitsOf(v, base), upper);
  }

  lemma BlankShowsItem(m: Machine, item: Item, arg: nat)
    ensures RenderItemFrom(m, item, arg, Zeroed()) == RenderItem(m, item, arg)
  {
    hide RenderNumberFrom, RenderNumber, Padded;
    if PrintsNumber(item) {
      if item.conversion.Number? {
        BlankShowsNumber(StyleOf(item.flags), AmountOf(m, item.flags.width, arg), ValueAt(m, item, arg),
                         BaseOf(item), UpperOf(item));
      } else {
        BlankShowsNumber(PointerStyle(item.flags), 8, ValueAt(m, item, arg), BaseOf(item), UpperOf(item));
      }
    }
  }

  /** With a buffer that is cleared for every number the rendering is the intended one. */
  lemma {:induction false} ClearedIsIntended(m: Machine, items: seq<Item>, arg: nat)
    ensures RenderFrom(m, items, arg, Zeroed(), true) == Render(m, items, arg)
    decreases |items|
  {
    hide RenderItemFrom, RenderItem;
    if items == [] {
    } else {
      BlankShowsItem(m, items[0], arg);
      ClearedIsIntended(m, items[1..], NextArg(m, items[0], arg));
    }
  }
}
