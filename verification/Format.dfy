/** The one-pass formatter (libk/kstring_format.c). */
module Format {
  import opened Bits
  import opened KChar
  import opened Numerals
  import opened KString
  import opened FormatSpec
  import opened FormatBuffer
  import opened FormatPointers

  /** The flags of the directive being read, with every amount already fetched. */
  datatype FormatFlags = FormatFlags(leftPad: bool, sign: SignStyle, zeroPad: bool, hexUpper: bool, typeWidth: TypeWidth,
                                     typeSigned: bool, prefix: bool, base: nat, fieldWidth: int, precision: int)

  const DEFAULT_FLAGS: FormatFlags :=
    FormatFlags(true, NegativeOnly, false, false, IntWidth, true, false, 10, 0, 0)

  const PTRDIFF_LIMIT: nat := 0x8000_0000

  /** The buffer holds t from p on and is as before in front of it; behind it at most the next
      character (the running terminator) has changed. */
  ghost predicate Emitted(after: seq<char>, before: seq<char>, p: nat, t: string) {
    && |after| == |before| && p + |t| <= |after|
    && (forall k :: 0 <= k < p ==> after[k] == before[k])
    && (forall k :: p <= k < p + |t| ==> after[k] == t[k - p])
    && (forall k :: p + |t| < k < |after| ==> after[k] == before[k])
  }

  lemma EmittedTogether(after: seq<char>, mid: seq<char>, before: seq<char>, p: nat, s: string, t: string)
    requires Emitted(mid, before, p, s) && Emitted(after, mid, p + |s|, t)
    ensures Emitted(after, before, p, s + t)
  {
  }

  lemma EmittedNothing(before: seq<char>, p: nat)
    requires p <= |before|
    ensures Emitted(before, before, p, "")
  {
  }

  /** The padding loops of do_string: they stop at the end of the buffer. */
  method Pad(buffer: array<char>, p: nat, q: nat, padding: nat, c: char) returns (p': nat)
    requires p + padding < q <= buffer.Length
    modifies buffer
    ensures p' == p + padding && Emitted(buffer[..], old(buffer[..]), p, Repeat(c, padding))
  {
    hide Repeat;
    p' := p;
    var left := padding;
    while left > 0 && p' < q
      invariant 0 <= left <= padding && p' == p + padding - left
      invariant forall k :: 0 <= k < buffer.Length ==> buffer[k] == if p <= k < p' then c else old(buffer[k])
    {
      buffer[p'] := c;
      left := left - 1;
      p' := p' + 1;
    }
  }

  /** do_string. The number of characters allowed is the difference p - q, negative and taken as
      unsigned, so that it never limits the copy while there is room at all. */
  method DoString(buffer: array<char>, p: nat, q: nat, src: seq<char>, n: nat, flags: FormatFlags, isNumber: bool)
    returns (p': nat)
    requires n < WORD && (CLength(src) < |src| || n < |src|)
    requires q <= buffer.Length && q <= PTRDIFF_LIMIT
    requires p + |Field(src, n, flags, isNumber)| < q
    modifies buffer
    ensures p' == p + |Field(src, n, flags, isNumber)|
    ensures Emitted(buffer[..], old(buffer[..]), p, Field(src, n, flags, isNumber))
  {
    hide CopyLength, Repeat, Emitted;
    var padChar := if isNumber && flags.zeroPad then '0' else ' ';
    var width := flags.fieldWidth % WORD;
    var padding := if n < width then width - n else 0;
    ghost var text, blank := src[..CopyLength(src, n)], Repeat(padChar, padding);
    p' := p;
    ghost var s0 := buffer[..];
    EmittedNothing(s0, p);
    if flags.leftPad {
      p' := Pad(buffer, p, q, padding, padChar);
    }
    ghost var s1 := buffer[..];
    var room := (p' - q) % WORD;
    RoomIsAmple(p', q, src, n);
    p' := CopyOut(buffer, p', src, if room < n then room else n);
    ghost var s2 := buffer[..];
    EmittedTogether(s2, s1, s0, p, if flags.leftPad then blank else "", text);
    if !flags.leftPad {
      assert "" + text == text;
      p' := Pad(buffer, p', q, padding, padChar);
      EmittedTogether(buffer[..], s2, s0, p, text, blank);
    }
  }

  /** What do_string writes for the string at the start of `src`. */
  function Field(src: seq<char>, n: nat, flags: FormatFlags, isNumber: bool): string {
    Padded(src[..CopyLength(src, n)], n, flags.fieldWidth, flags.leftPad, if isNumber && flags.zeroPad then '0' else ' ')
  }

  lemma RoomIsAmple(p: nat, q: nat, src: seq<char>, n: nat)
    requires p + CopyLength(src, n) < q <= PTRDIFF_LIMIT && n < WORD
    ensures var room := (p - q) % WORD; CopyLength(src, if room < n then room else n) == CopyLength(src, n)
    ensures var room := (p - q) % WORD;
            CLength(src) < |src| || n < |src| ==> CLength(src) < |src| || (if room < n then room else n) < |src|
  {
    hide CLength;
    DivModUnique(p - q, WORD, -1, p - q + WORD);
  }

  method CopyOut(buffer: array<char>, p: nat, src: seq<char>, n: nat) returns (p': nat)
    requires CLength(src) < |src| || n < |src|
    requires p + CopyLength(src, n) < buffer.Length
    modifies buffer
    ensures p' == p + CopyLength(src, n)
    ensures Emitted(buffer[..], old(buffer[..]), p, src[..CopyLength(src, n)])
  {
    hide CopyLength;
    p' := Copy(buffer, p, src, n);
  }

  function Style(flags: FormatFlags): NumberStyle {
    NumberStyle(flags.sign, flags.prefix, flags.leftPad, flags.zeroPad)
  }

  /** The contents of the static buffer as the next number finds it. As written nothing clears it. */
  ghost function Now(scratch: array<char>, clear: bool): Scratch
    requires scratch.Length == SCRATCH_SIZE
    reads scratch
  {
    if clear then Zeroed() else scratch[..]
  }

  lemma NowIs(scratch: array<char>, clear: bool)
    requires scratch.Length == SCRATCH_SIZE
    ensures clear ==> Now(scratch, clear) == Zeroed()
  {
  }

  /** What format_number should write for the argument at `arg`. */
  function NumberText(flags: FormatFlags, m: Machine, arg: nat): string
    requires 2 <= flags.base <= 36
  {
    RenderNumber(Style(flags), flags.fieldWidth, NumberAt(m, flags.typeSigned, flags.typeWidth, arg),
                 flags.base, flags.hexUpper)
  }

  /** What it writes by way of the static buffer. */
  function NumberTextFrom(flags: FormatFlags, m: Machine, arg: nat, s: Scratch): string
    requires 2 <= flags.base <= 36
  {
    RenderNumberFrom(s, Style(flags), flags.fieldWidth, NumberAt(m, flags.typeSigned, flags.typeWidth, arg),
                     flags.base, flags.hexUpper)
  }

  function NumberScratch(flags: FormatFlags, m: Machine, arg: nat, s: Scratch): Scratch
    requires flags.base >= 2
  {
    UsedBy(s, DigitsOf(NumberAt(m, flags.typeSigned, flags.typeWidth, arg), flags.base), flags.hexUpper)
  }

  /** format_number: sign, prefix, then the digits in their field. With `clear` the static buffer is
      cleared first. */
  method FormatNumber(buffer: array<char>, p: nat, q: nat, flags: FormatFlags, m: Machine, arg: nat,
                      scratch: array<char>, clear: bool, ghost s: Scratch)
    returns (p': nat)
    requires scratch.Length == SCRATCH_SIZE && scratch != buffer && s == Now(scratch, clear)
    requires ValidMachine(m) && 2 <= flags.base <= 36
    requires q <= buffer.Length && q <= PTRDIFF_LIMIT && p + |NumberTextFrom(flags, m, arg, s)| < q
    modifies buffer, scratch
    ensures p' == p + |NumberTextFrom(flags, m, arg, s)|
    ensures Emitted(buffer[..], old(buffer[..]), p, NumberTextFrom(flags, m, arg, s))
    ensures Now(scratch, clear) == if clear then Zeroed() else NumberScratch(flags, m, arg, s)
  {
    hide Emitted, Padded, DigitsOf, UsedBy, ShownBy;
    var value, neg: bool := NumberAt(m, flags.typeSigned, flags.typeWidth, arg), false;
    NumberRange(m, flags.typeSigned, flags.typeWidth, arg);
    SameDigits(value, flags.base);
    if flags.typeSigned && value < 0 {
      neg := true;
      value := -value;
    }
    ghost var sign, prefix := SignText(neg, flags.sign), PrefixText(flags.prefix, flags.base, flags.hexUpper);
    ghost var field := DigitField(value, flags, s);
    assert NumberTextFrom(flags, m, arg, s) == sign + prefix + field;
    ghost var s0 := buffer[..];
    p' := PutSign(buffer, p, neg, flags);
    ghost var s1 := buffer[..];
    p' := PutPrefix(buffer, p', flags);
    ghost var s2 := buffer[..];
    EmittedTogether(s2, s1, s0, p, sign, prefix);
    p' := PutDigits(buffer, p', q, value, flags, scratch, clear, s);
    EmittedTogether(buffer[..], s2, s0, p, sign + prefix, field);
  }

  lemma SameDigits(v: int, base: nat)
    requires base >= 2
    ensures DigitsOf(-v, base) == DigitsOf(v, base)
  {
  }

  lemma NumberRange(m: Machine, signed: bool, w: TypeWidth, arg: nat)
    requires ValidMachine(m)
    ensures var v := NumberAt(m, signed, w, arg);
            if signed then INTMAX_MIN <= v <= INTMAX_MAX else 0 <= v < UINTMAX_LIMIT
  {
  }

  method PutSign(buffer: array<char>, p: nat, neg: bool, flags: FormatFlags) returns (p': nat)
    requires p + |SignText(neg, flags.sign)| < buffer.Length
    modifies buffer
    ensures p' == p + |SignText(neg, flags.sign)|
    ensures Emitted(buffer[..], old(buffer[..]), p, SignText(neg, flags.sign))
  {
    p' := p;
    if neg {
      buffer[p'] := '-';
      p' := p' + 1;
    } else if flags.sign == Always {
      buffer[p'] := '+';
      p' := p' + 1;
    } else if flags.sign == SpaceStyle {
      buffer[p'] := ' ';
      p' := p' + 1;
    }
  }

  /** Writes the prefix for binary, octal or hexadecimal numbers. */
  method PutPrefix(buffer: array<char>, p: nat, flags: FormatFlags) returns (p': nat)
    requires p + |PrefixText(flags.prefix, flags.base, flags.hexUpper)| < buffer.Length
    modifies buffer
    ensures p' == p + |PrefixText(flags.prefix, flags.base, flags.hexUpper)|
    ensures Emitted(buffer[..], old(buffer[..]), p, PrefixText(flags.prefix, flags.base, flags.hexUpper))
  {
    p' := p;
    if flags.prefix {
      if flags.base == 8 || flags.base == 16 {
        buffer[p'] := '0';
        p' := p' + 1;
        if flags.base == 16 {
          buffer[p'] := if flags.hexUpper then 'X' else 'x';
          p' := p' + 1;
        }
      } else if flags.base == 2 {
        buffer[p'] := 'b';
        p' := p' + 1;
      }
    }
  }

  /** The digits of a magnitude, by way of the static buffer. */
  method PutDigits(buffer: array<char>, p: nat, q: nat, value: nat, flags: FormatFlags,
                   scratch: array<char>, clear: bool, ghost s: Scratch)
    returns (p': nat)
    requires scratch.Length == SCRATCH_SIZE && scratch != buffer && s == Now(scratch, clear)
    requires value < UINTMAX_LIMIT && 2 <= flags.base <= 36 && q <= buffer.Length && q <= PTRDIFF_LIMIT
    requires p + |DigitField(value, flags, s)| < q
    modifies buffer, scratch
    ensures p' == p + |DigitField(value, flags, s)|
    ensures Emitted(buffer[..], old(buffer[..]), p, DigitField(value, flags, s))
    ensures scratch[..] == UsedBy(s, DigitsOf(value, flags.base), flags.hexUpper)
  {
    hide Padded, Emitted, TakenDigits, Settled;
    if clear {
      Clear(scratch);
    }
    assert s == scratch[..];
    ghost var ds := DigitsOf(value, flags.base);
    var n := FormatUintmax(scratch, 0, NUMBER_MAX, value, flags.base, flags.hexUpper);
    assert scratch[..] == UsedBy(s, ds, flags.hexUpper);
    hide UsedBy, Wrote;
    ShownIsCopied(s, ds, flags.hexUpper);
    p' := DoString(buffer, p, q, scratch[..], n, flags, true);
  }

  method Clear(scratch: array<char>)
    requires scratch.Length == SCRATCH_SIZE
    modifies scratch
    ensures scratch[..] == Zeroed()
  {
    forall i | 0 <= i < scratch.Length {
      scratch[i] := NUL;
    }
  }

  function DigitField(value: nat, flags: FormatFlags, s: Scratch): string
    requires flags.base >= 2
  {
    var shown := ShownBy(s, DigitsOf(value, flags.base), flags.hexUpper);
    Padded(shown, |shown|, flags.fieldWidth, flags.leftPad, if flags.zeroPad then '0' else ' ')
  }

  /** The characters shown are what a copy bounded by their number takes. */
  lemma ShownIsCopied(s: Scratch, ds: seq<nat>, upper: bool)
    requires 0 < |ds| <= NUMBER_MAX && forall i :: 0 <= i < |ds| ==> ds[i] < 36
    ensures CopyLength(UsedBy(s, ds, upper), |ds|) == |ds|
    ensures UsedBy(s, ds, upper)[..|ds|] == ShownBy(s, ds, upper)
  {
    StaleByte(ds, upper, s[|ds|]);
    TextIsAscii(ds, upper);
    hide Settled;
    var r := UsedBy(s, ds, upper);
    assert forall i :: 0 <= i < |ds| ==> r[..|ds|][i] != NUL;
    NoShorter(r, |ds|);
  }

  /** format_string: the string, or as much of it as the precision allows. */
  method FormatString(buffer: array<char>, p: nat, q: nat, flags: FormatFlags, s: string) returns (p': nat)
    requires NUL !in s && |s| < WORD && q <= buffer.Length && q <= PTRDIFF_LIMIT
    requires p + |StringText(flags, s)| < q
    modifies buffer
    ensures p' == p + |StringText(flags, s)|
    ensures Emitted(buffer[..], old(buffer[..]), p, StringText(flags, s))
  {
    hide Padded, Emitted;
    var n := |s|;
    if flags.precision > 0 && flags.precision < n {
      n := flags.precision;
    }
    TerminatedCopy(s, n);
    p' := DoString(buffer, p, q, s + [NUL], n, flags, false);
  }

  lemma TerminatedCopy(s: string, n: nat)
    requires NUL !in s && n <= |s|
    ensures CLength(s + [NUL]) == |s| && CopyLength(s + [NUL], n) == n && (s + [NUL])[..n] == s[..n]
  {
    assert (s + [NUL])[..|s|] == s;
    CLengthIs(s + [NUL], |s|);
  }

  function StringText(flags: FormatFlags, s: string): string {
    var n := if 0 < flags.precision < |s| then flags.precision else |s|;
    Padded(s[..n], n, flags.fieldWidth, flags.leftPad, ' ')
  }

  /** format_char: one character; a NUL is not written, though it counts when the field is padded. */
  method FormatChar(buffer: array<char>, p: nat, q: nat, flags: FormatFlags, c: char) returns (p': nat)
    requires q <= buffer.Length && q <= PTRDIFF_LIMIT && p + |CharText(flags, c)| < q
    modifies buffer
    ensures p' == p + |CharText(flags, c)|
    ensures Emitted(buffer[..], old(buffer[..]), p, CharText(flags, c))
  {
    hide Padded, Emitted;
    var s := [c, NUL];
    if c == NUL {
      CLengthIs(s, 0);
    } else {
      CLengthIs(s, 1);
    }
    assert s[..CopyLength(s, 1)] == if c == NUL then "" else [c];
    p' := DoString(buffer, p, q, s, 1, flags, false);
  }

  function CharText(flags: FormatFlags, c: char): string {
    Padded(if c == NUL then "" else [c], 1, flags.fieldWidth, flags.leftPad, ' ')
  }

  // ---------- One directive ----------

  /** extract_int: the number at position i and the position after its digits. */
  method ExtractInt(fmt: string, i: nat) returns (value: int, next: nat)
    requires Ascii(fmt) && i <= |fmt| && DigitsEnd(fmt, i) - i < NUMBER_MAX
    ensures value == IntAt(fmt, i) && next == DigitsEnd(fmt, i)
  {
    hide DigitsEnd, Classes;
    var buffer := new char[NUMBER_MAX];
    var p: nat := 0;
    next := i;
    DigitsEndStep(fmt, i);
    while p < NUMBER_MAX && next < |fmt| && IsDigit(fmt[next])
      invariant next == i + p && next <= |fmt| && DigitsEnd(fmt, next) == DigitsEnd(fmt, i)
      invariant p <= NUMBER_MAX && forall k :: 0 <= k < p ==> buffer[k] == fmt[i..][k]
    {
      DigitsEndStep(fmt, next);
      buffer[p] := fmt[next];
      p := p + 1;
      next := next + 1;
    }
    DigitsEndStep(fmt, next);
    buffer[p] := NUL;
    DigitsAreText(fmt, i);
    ghost var t := fmt[i..next];
    assert buffer[..][..|t|] == t;
    CLengthIs(buffer[..], |t|);
    assert buffer[0..] == buffer[..];
    var n := ParseIntmax(buffer, 0, 10);
    value := Wrap32(n);
  }

  lemma DigitsEndStep(fmt: string, i: nat)
    requires Ascii(fmt)
    ensures DigitsEnd(fmt, i) == if i < |fmt| && IsDigit(fmt[i]) then DigitsEnd(fmt, i + 1) else i
  {
  }

  lemma {:induction false} DigitsAreText(fmt: string, i: nat)
    requires Ascii(fmt) && i <= |fmt|
    ensures Ascii(fmt[i..DigitsEnd(fmt, i)]) && NUL !in fmt[i..DigitsEnd(fmt, i)]
    decreases |fmt| - i
  {
    if i >= |fmt| || !IsDigit(fmt[i]) {
    } else {
      DigitsAreText(fmt, i + 1);
      CaseConversion(fmt[i]);
      assert fmt[i..DigitsEnd(fmt, i)] == [fmt[i]] + fmt[i + 1..DigitsEnd(fmt, i)];
    }
  }

  /** The flags with their amounts fetched from the directive's arguments. */
  function Fetched(f: Flags, m: Machine, arg: nat): FormatFlags {
    DEFAULT_FLAGS.(leftPad := f.leftPad, sign := f.sign, zeroPad := f.zeroPad, typeWidth := f.typeWidth,
                   prefix := f.prefix, fieldWidth := AmountOf(m, f.width, arg),
                   precision := AmountOf(m, f.precision, arg))
  }

  datatype Scan = Next | Convert | Fail | Undefined

  /** One round of the switch in format_arg over the characters that change a flag. */
  method ReadModifier(fmt: string, i: nat, flags: FormatFlags, m: Machine, cursor: nat)
    returns (scan: Scan, flags': FormatFlags, cursor': nat, next: nat, ghost modifier: Modifier)
    requires Ascii(fmt) && i < |fmt| && !TokenAt(fmt, i).OutOfScope?
    ensures scan.Next? <==> TokenAt(fmt, i).Modifying?
    ensures scan.Convert? <==> TokenAt(fmt, i).Converting?
    ensures scan.Fail? <==> TokenAt(fmt, i).Unexpected?
    ensures scan.Next? ==> TokenAt(fmt, i) == Modifying(modifier, next)
    ensures scan.Next? ==> flags' == Applied(flags, modifier, m, cursor) && cursor' == cursor + Stars(modifier)
  {
    hide IntAt, DigitsEnd, Wrap32;
    var c, d := At(fmt, i), At(fmt, i + 1);
    scan, flags', cursor', next, modifier := Next, flags, cursor, i + 1, Minus;
    if c == '-' {
      flags' := flags.(leftPad := false);
    } else if c == '+' {
      flags', modifier := flags.(sign := Always), Plus;
    } else if c == ' ' {
      flags', modifier := flags.(sign := SpaceStyle), Gap;
    } else if c == '#' {
      flags', modifier := flags.(prefix := true), Hash;
    } else if c == '0' {
      flags', modifier := flags.(zeroPad := true), Zero;
    } else if c == '*' {
      flags', modifier := flags.(fieldWidth := Wrap32(m.word(cursor))), WidthArg;
      cursor' := cursor + 1;
    } else if c == '.' {
      if IsDigit(d) {
        var n;
        n, next := ExtractInt(fmt, i + 1);
        flags', modifier := flags.(precision := n), Precision(n);
        if n < 0 {
          scan := Fail;
        }
      } else if d == '*' {
        flags', modifier := flags.(precision := Wrap32(m.word(cursor))), PrecisionArg;
        cursor', next := cursor + 1, i + 2;
      } else {
        flags', modifier := flags.(precision := 0), Precision(0);
      }
    } else if c == 'j' {
      flags', modifier := flags.(typeWidth := IntMaxWidth), Length(IntMaxWidth);
    } else if c == 'z' {
      flags', modifier := flags.(typeWidth := SizeWidth), Length(SizeWidth);
    } else if c == 't' {
      flags', modifier := flags.(typeWidth := PtrDiffWidth), Length(PtrDiffWidth);
    } else if c == 'L' {
      flags', modifier := flags.(typeWidth := LongDoubleWidth), Length(LongDoubleWidth);
    } else if c == 'q' {
      flags', modifier := flags.(typeWidth := LongLongWidth), Length(LongLongWidth);
    } else if c == 'h' {
      var w := if d == 'h' then CharWidth else ShortWidth;
      flags', modifier := flags.(typeWidth := w), Length(w);
    } else if c == 'l' {
      var w := if d == 'l' then LongLongWidth else LongWidth;
      flags', modifier := flags.(typeWidth := w), Length(w);
    } else if c in "bdiouXxcsp" {
      scan := Convert;
    } else if IsDigit(c) {
      var n;
      n, next := ExtractInt(fmt, i);
      flags', modifier := flags.(fieldWidth := n), Width(n);
      if n < 0 {
        scan := Fail;
      }
    } else {
      scan := Fail;
    }
  }

  /** What a modifier does to flags whose amounts are fetched at once. */
  function Applied(flags: FormatFlags, modifier: Modifier, m: Machine, cursor: nat): FormatFlags {
    match modifier
    case Minus => flags.(leftPad := false)
    case Plus => flags.(sign := Always)
    case Gap => flags.(sign := SpaceStyle)
    case Hash => flags.(prefix := true)
    case Zero => flags.(zeroPad := true)
    case WidthArg => flags.(fieldWidth := Wrap32(m.word(cursor)))
    case PrecisionArg => flags.(precision := Wrap32(m.word(cursor)))
    case Width(n) => flags.(fieldWidth := n)
    case Precision(n) => flags.(precision := n)
    case Length(w) => flags.(typeWidth := w)
  }

  function Stars(modifier: Modifier): nat {
    if modifier.WidthArg? || modifier.PrecisionArg? then 1 else 0
  }

  /** Fetching amounts as they come agrees with fetching them when the directive is complete. */
  lemma FetchedModified(f: Flags, modifier: Modifier, m: Machine, arg: nat)
    ensures Fetched(Modify(f, modifier), m, arg) == Applied(Fetched(f, m, arg), modifier, m, arg + f.stars)
    ensures Modify(f, modifier).stars == f.stars + Stars(modifier)
  {
  }

  /** format_arg: reads a directive from position i and writes its argument. Returns a negative
      number for an unexpected character; otherwise `next` is the place of the conversion. */
  method FormatArg(buffer: array<char>, p: nat, q: nat, fmt: string, i: nat, m: Machine, arg: nat,
                   scratch: array<char>, clear: bool, ghost s: Scratch)
    returns (ret: int, p': nat, next: nat, cursor: nat)
    requires scratch.Length == SCRATCH_SIZE && scratch != buffer && s == Now(scratch, clear)
    requires WellFormed(fmt) && ValidMachine(m) && i <= |fmt|
    requires q <= buffer.Length && q <= PTRDIFF_LIMIT && p < q
    requires !ParseDirective(fmt, i, DEFAULTS).Undefined?
    requires ParseDirective(fmt, i, DEFAULTS).Done? ==>
               p + |RenderItemFrom(m, ParseDirective(fmt, i, DEFAULTS).item, arg, s)| < q
    modifies buffer, scratch
    ensures if ParseDirective(fmt, i, DEFAULTS).Rejected? then ret == -1 else ret == q - p' && p' < q
    ensures ret >= 0 ==>
              && var r := ParseDirective(fmt, i, DEFAULTS);
              && var text := RenderItemFrom(m, r.item, arg, s);
              && next + 1 == r.next && cursor == arg + ArgWords(r.item)
              && p' == p + |text| && Emitted(buffer[..], old(buffer[..]), p, text)
              && Now(scratch, clear) == ScratchFrom(m, r.item, arg, s, clear)
  {
    hide TokenAt, ParseDirective, RenderItemFrom, ScratchFrom, Emitted, Modify, Applied;
    var flags := DEFAULT_FLAGS;
    ghost var f := DEFAULTS;
    cursor, next, p' := arg, i, p;
    ghost var before := buffer[..];
    while true
      modifies {}
      invariant i <= next <= |fmt| && cursor == arg + f.stars
      invariant flags == Fetched(f, m, arg)
      invariant ParseDirective(fmt, next, f) == ParseDirective(fmt, i, DEFAULTS)
      decreases |fmt| - next
    {
      ParseDirectiveStep(fmt, next, f);
      TokenInside(fmt, next);
      var scan, flags', cursor', after;
      ghost var modifier;
      scan, flags', cursor', after, modifier := ReadModifier(fmt, next, flags, m, cursor);
      if scan.Fail? {
        return -1, p, next, cursor;
      }
      if scan.Convert? {
        break;
      }
      FetchedModified(f, modifier, m, arg);
      flags, cursor, next, f := flags', cursor', after, Modify(f, modifier);
    }
    ParseDirectiveStep(fmt, next, f);
    TokenInside(fmt, next);
    assert buffer[..] == before;
    ConversionAt(fmt, next);
    p', cursor := PutArgument(buffer, p, q, fmt[next], flags, m, arg, cursor, f, scratch, clear, s);
    ret := q - p';
  }

  lemma TokenInside(fmt: string, i: nat)
    requires Ascii(fmt)
    ensures !TokenAt(fmt, i).OutOfScope? ==> i < |fmt|
    ensures TokenAt(fmt, i).Converting? ==> TokenAt(fmt, i).next == i + 1
  {
  }

  /** The text of a number directive, in terms of the fetched flags. */
  lemma NumberItem(f: Flags, conversion: Conversion, m: Machine, arg: nat, s: Scratch)
    requires conversion.Number?
    ensures var item, flags := Directive(f, conversion), NumberFlags(Fetched(f, m, arg), conversion);
            && RenderItemFrom(m, item, arg, s) == NumberTextFrom(flags, m, arg + f.stars, s)
            && ScratchFrom(m, item, arg, s, false) == NumberScratch(flags, m, arg + f.stars, s)
  {
    hide RenderNumberFrom, NumberAt, UsedBy, DigitsOf;
  }

  lemma PointerItem(f: Flags, m: Machine, arg: nat, s: Scratch)
    ensures var item, flags := Directive(f, Pointer), PointerFlags(Fetched(f, m, arg));
            && RenderItemFrom(m, item, arg, s) == NumberTextFrom(flags, m, arg + f.stars, s)
            && ScratchFrom(m, item, arg, s, false) == NumberScratch(flags, m, arg + f.stars, s)
  {
    hide RenderNumberFrom, NumberAt, UsedBy, DigitsOf;
  }

  /** The text of a character or a string. */
  lemma TextItem(f: Flags, m: Machine, arg: nat, s: Scratch)
    ensures var flags, value := Fetched(f, m, arg), arg + f.stars;
            && !flags.hexUpper && flags.typeWidth == f.typeWidth
            && RenderItemFrom(m, Directive(f, Character), arg, s) == CharText(flags, (m.word(value) % 256) as char)
            && RenderItemFrom(m, Directive(f, Str), arg, s) == StringText(flags, m.text(m.word(value)))
            && ScratchFrom(m, Directive(f, Character), arg, s, false) == ScratchFrom(m, Directive(f, Str), arg, s, false) == s
  {
    hide Padded;
  }

  lemma ClearedStaysBlank(m: Machine, item: Item, arg: nat, s: Scratch)
    ensures ScratchFrom(m, item, arg, s, true) == Zeroed()
  {
  }

  /** The conversion that a character stands for. */
  function ConversionOf(c: char): Conversion {
    if c == 'b' then Number(false, 2, false)
    else if c == 'd' || c == 'i' then Number(true, 10, false)
    else if c == 'o' then Number(false, 8, false)
    else if c == 'u' then Number(false, 10, false)
    else if c == 'X' then Number(false, 16, true)
    else if c == 'x' then Number(false, 16, false)
    else if c == 'c' then Character
    else if c == 's' then Str
    else Pointer
  }

  lemma Conversions(f: Flags, c: char)
    ensures c in "bdiouXx" <==> ConversionOf(c).Number?
    ensures c == 'c' <==> ConversionOf(c).Character?
    ensures c == 's' <==> ConversionOf(c).Str?
    ensures ArgWords(Directive(f, ConversionOf(c))) ==
              f.stars + if c in "bdiouXx" && IsWide(c == 'd' || c == 'i', f.typeWidth) then 2 else 1
  {
  }

  lemma ConversionAt(fmt: string, i: nat)
    requires Ascii(fmt) && TokenAt(fmt, i).Converting?
    ensures TokenAt(fmt, i).conversion == ConversionOf(At(fmt, i))
  {
    hide IntAt, DigitsEnd, Classes;
  }

  /** The flags with which a number conversion is formatted. */
  function NumberFlags(flags: FormatFlags, conversion: Conversion): FormatFlags
    requires conversion.Number?
  {
    flags.(typeSigned := conversion.signed, base := conversion.base, hexUpper := conversion.upper)
  }

  /** The number conversions of format_arg's switch. */
  method PutNumber(buffer: array<char>, p: nat, q: nat, c: char, flags: FormatFlags, m: Machine, cursor: nat,
                   scratch: array<char>, clear: bool, ghost s: Scratch)
    returns (p': nat)
    requires scratch.Length == SCRATCH_SIZE && scratch != buffer && s == Now(scratch, clear)
    requires ValidMachine(m) && ConversionOf(c).Number? && !flags.hexUpper
    requires q <= buffer.Length && q <= PTRDIFF_LIMIT
    requires p + |NumberTextFrom(NumberFlags(flags, ConversionOf(c)), m, cursor, s)| < q
    modifies buffer, scratch
    ensures var text := NumberTextFrom(NumberFlags(flags, ConversionOf(c)), m, cursor, s);
            p' == p + |text| && Emitted(buffer[..], old(buffer[..]), p, text)
    ensures Now(scratch, clear) ==
              if clear then Zeroed() else NumberScratch(NumberFlags(flags, ConversionOf(c)), m, cursor, s)
  {
    hide NumberTextFrom, NumberScratch, Emitted;
    if c == 'b' {
      p' := FormatNumber(buffer, p, q, flags.(typeSigned := false, base := 2), m, cursor, scratch, clear, s);
    } else if c == 'd' || c == 'i' {
      p' := FormatNumber(buffer, p, q, flags.(typeSigned := true, base := 10), m, cursor, scratch, clear, s);
    } else if c == 'o' {
      p' := FormatNumber(buffer, p, q, flags.(typeSigned := false, base := 8), m, cursor, scratch, clear, s);
    } else if c == 'u' {
      p' := FormatNumber(buffer, p, q, flags.(typeSigned := false, base := 10), m, cursor, scratch, clear, s);
    } else if c == 'X' {
      p' := FormatNumber(buffer, p, q, flags.(hexUpper := true, typeSigned := false, base := 16), m, cursor, scratch, clear, s);
    } else {
      p' := FormatNumber(buffer, p, q, flags.(typeSigned := false, base := 16), m, cursor, scratch, clear, s);
    }
  }

  /** The conversions of format_arg's switch. */
  method PutArgument(buffer: array<char>, p: nat, q: nat, c: char, flags: FormatFlags, m: Machine,
                     ghost arg: nat, cursor: nat, ghost f: Flags, scratch: array<char>, clear: bool, ghost s: Scratch)
    returns (p': nat, cursor': nat)
    requires scratch.Length == SCRATCH_SIZE && scratch != buffer && s == Now(scratch, clear) && ValidMachine(m)
    requires flags == Fetched(f, m, arg) && cursor == arg + f.stars
    requires q <= buffer.Length && q <= PTRDIFF_LIMIT
    requires p + |RenderItemFrom(m, Directive(f, ConversionOf(c)), arg, s)| < q
    modifies buffer, scratch
    ensures cursor' == arg + ArgWords(Directive(f, ConversionOf(c)))
    ensures var text := RenderItemFrom(m, Directive(f, ConversionOf(c)), arg, s);
            p' == p + |text| && Emitted(buffer[..], old(buffer[..]), p, text)
    ensures Now(scratch, clear) == ScratchFrom(m, Directive(f, ConversionOf(c)), arg, s, clear)
  {
    TextItem(f, m, arg, s);
    ClearedStaysBlank(m, Directive(f, ConversionOf(c)), arg, s);
    Conversions(f, c);
    hide RenderItemFrom, ScratchFrom, Fetched, NumberTextFrom, NumberScratch, CharText, StringText, PointerFlags,
      NumberFlags, Emitted, ConversionOf, ArgWords, IsWide, Now, Zeroed;
    var signed := c == 'd' || c == 'i';
    cursor' := cursor + if c in "bdiouXx" && IsWide(signed, flags.typeWidth) then 2 else 1;
    if c in "bdiouXx" {
      NumberItem(f, ConversionOf(c), m, arg, s);
      p' := PutNumber(buffer, p, q, c, flags, m, cursor, scratch, clear, s);
    } else if c == 'c' {
      NowIs(scratch, clear);
      p' := FormatChar(buffer, p, q, flags, (m.word(cursor) % 256) as char);
    } else if c == 's' {
      NowIs(scratch, clear);
      p' := FormatString(buffer, p, q, flags, m.text(m.word(cursor)));
    } else {
      PointerItem(f, m, arg, s);
      p' := FormatPointer(buffer, p, q, flags, m, cursor, scratch, clear, s);
    }
  }

  /** format_pointer: from a blank buffer, eight upper-case hexadecimal digits of the argument word,
      after the prefix if the flags ask for it. */
  method FormatPointer(buffer: array<char>, p: nat, q: nat, flags: FormatFlags, m: Machine, arg: nat,
                       scratch: array<char>, clear: bool, ghost s: Scratch)
    returns (p': nat)
    requires scratch.Length == SCRATCH_SIZE && scratch != buffer && s == Now(scratch, clear)
    requires ValidMachine(m) && q <= buffer.Length && q <= PTRDIFF_LIMIT
    requires p + |NumberTextFrom(PointerFlags(flags), m, arg, s)| < q
    modifies buffer, scratch
    ensures var text := NumberTextFrom(PointerFlags(flags), m, arg, s);
            && p' == p + |text| && Emitted(buffer[..], old(buffer[..]), p, text)
            && (s == Zeroed() ==> ShowsPointer(text, flags.prefix, m.word(arg)))
    ensures p' == p + POINTER_DIGITS + if flags.prefix then 2 else 0
    ensures Now(scratch, clear) ==
              if clear then Zeroed() else NumberScratch(PointerFlags(flags), m, arg, s)
  {
    hide RenderNumber, RenderNumberFrom, Emitted, Parse, Padded, NumberScratch, UsedBy, DigitsOf;
    ghost var style := Style(PointerFlags(flags));
    PointerShowsWord(flags.prefix, m.word(arg));
    BlankShowsNumber(style, POINTER_DIGITS, m.word(arg), 16, true);
    SameLength(s, style, POINTER_DIGITS, m.word(arg), 16, true);
    p' := FormatNumber(buffer, p, q, PointerFlags(flags), m, arg, scratch, clear, s);
  }

  function PointerFlags(flags: FormatFlags): FormatFlags {
    FormatFlags(true, NegativeOnly, true, true, LongWidth, false, flags.prefix, 16, 8, 0)
  }

  // ---------- The whole format ----------

  /** kstring_vformat with a cleared buffer. Given room for all of it, one pass writes exactly what
      parsing the format first and rendering its items afterwards gives, ends it with a NUL and returns
      its length; if the format is rejected the answer is -1. */
  method VFormat(buffer: array<char>, size: nat, fmt: string, m: Machine, args: nat) returns (ret: int)
    requires WellFormed(fmt) && ValidMachine(m)
    requires !ParseFormat(fmt, 0).outcome.Unknown?
    requires size <= buffer.Length && size <= PTRDIFF_LIMIT && |Render(m, ParseFormat(fmt, 0).items, args)| < size
    modifies buffer
    ensures ParseFormat(fmt, 0).outcome.Stopped? ==> ret == -1
    ensures ParseFormat(fmt, 0).outcome.Complete? ==>
              && var text := Render(m, ParseFormat(fmt, 0).items, args);
              && ret == |text|
              && buffer[..] == text + [NUL] + old(buffer[..])[|text| + 1..]
  {
    hide ParseFormat, Render, RenderFrom;
    ClearedIsIntended(m, ParseFormat(fmt, 0).items, args);
    var scratch := new char[SCRATCH_SIZE](_ => NUL);
    ret := VFormatFrom(buffer, size, fmt, m, args, scratch, true);
  }

  /** kstring_vformat with one static buffer for all numbers: as written nothing clears it, and the text
      is that of rendering with what every number leaves to the next. */
  method VFormatFrom(buffer: array<char>, size: nat, fmt: string, m: Machine, args: nat,
                     scratch: array<char>, clear: bool)
    returns (ret: int)
    requires scratch.Length == SCRATCH_SIZE && scratch != buffer
    requires WellFormed(fmt) && ValidMachine(m)
    requires !ParseFormat(fmt, 0).outcome.Unknown?
    requires size <= buffer.Length && size <= PTRDIFF_LIMIT
    requires |RenderFrom(m, ParseFormat(fmt, 0).items, args, Now(scratch, clear), clear)| < size
    modifies buffer, scratch
    ensures ParseFormat(fmt, 0).outcome.Stopped? ==> ret == -1
    ensures ParseFormat(fmt, 0).outcome.Complete? ==>
              && var text := RenderFrom(m, ParseFormat(fmt, 0).items, args, old(Now(scratch, clear)), clear);
              && ret == |text|
              && buffer[..] == text + [NUL] + old(buffer[..])[|text| + 1..]
              && Now(scratch, clear) == LeftFrom(m, ParseFormat(fmt, 0).items, args, old(Now(scratch, clear)), clear)
  {
    hide ParseDirective, ParseFormat, RenderFrom, LeftFrom, RenderItemFrom, ScratchFrom, Emitted, ArgWords;
    ghost var s := Now(scratch, clear);
    ghost var last := LeftFrom(m, ParseFormat(fmt, 0).items, args, s, clear);
    ghost var before, all, done := buffer[..], RenderFrom(m, ParseFormat(fmt, 0).items, args, s, clear), "";
    var p, i, arg := 0, 0, args;
    EmittedNothing(before, 0);
    assert "" + all == all;
    while p < size && i < |fmt|
      invariant i <= |fmt| && p == |done| && p < size && s == Now(scratch, clear)
      invariant ParseFormat(fmt, i).outcome == ParseFormat(fmt, 0).outcome
      invariant all == done + RenderFrom(m, ParseFormat(fmt, i).items, arg, s, clear)
      invariant last == LeftFrom(m, ParseFormat(fmt, i).items, arg, s, clear)
      invariant Emitted(buffer[..], before, 0, done)
      decreases |fmt| - i
    {
      ParseFormatStep(fmt, i);
      ghost var mid := buffer[..];
      if fmt[i] == '%' && At(fmt, i + 1) != '%' {
        ghost var parsed := ParseDirective(fmt, i + 1, DEFAULTS);
        ghost var s' := s;
        if parsed.Done? {
          s' := ScratchFrom(m, parsed.item, arg, s, clear);
          RenderFromCons(m, parsed.item, ParseFormat(fmt, parsed.next).items, arg, s, clear);
          LeftFromCons(m, parsed.item, ParseFormat(fmt, parsed.next).items, arg, s, clear);
          Lengths(done, RenderItemFrom(m, parsed.item, arg, s),
                  RenderFrom(m, ParseFormat(fmt, parsed.next).items, NextArg(m, parsed.item, arg), s', clear));
        }
        var code, p', next, cursor := FormatArg(buffer, p, size, fmt, i + 1, m, arg, scratch, clear, s);
        if code < 0 {
          return -1;
        }
        EmittedTogether(buffer[..], mid, before, 0, done, RenderItemFrom(m, parsed.item, arg, s));
        done := done + RenderItemFrom(m, parsed.item, arg, s);
        s := s';
        p, i, arg := p', next, if m.byValue then arg else cursor;
      } else {
        ghost var rest := ParseFormat(fmt, i + 1).items;
        RenderFromCons(m, Literal(fmt[i]), rest, arg, s, clear);
        LeftFromCons(m, Literal(fmt[i]), rest, arg, s, clear);
        LiteralText(m, fmt[i], arg, s, clear);
        NowIs(scratch, clear);
        Lengths(done, [fmt[i]], RenderFrom(m, rest, arg, s, clear));
        PutChar(buffer, p, fmt[i]);
        EmittedTogether(buffer[..], mid, before, 0, done, [fmt[i]]);
        done := done + [fmt[i]];
        p := p + 1;
      }
      i := i + 1;
    }
    ParseFormatStep(fmt, i);
    NothingLeft(m, arg, s, clear);
    assert done == all;
    Terminated(buffer[..], before, all);
    buffer[p] := NUL;
    ret := p;
  }

  method PutChar(buffer: array<char>, p: nat, c: char)
    requires p < buffer.Length
    modifies buffer
    ensures Emitted(buffer[..], old(buffer[..]), p, [c])
  {
    buffer[p] := c;
  }

  lemma Lengths(a: string, b: string, c: string)
    ensures |a + (b + c)| == |a| + |b| + |c| && a + (b + c) == (a + b) + c
  {
  }

  lemma LiteralText(m: Machine, c: char, arg: nat, s: Scratch, clear: bool)
    ensures RenderItemFrom(m, Literal(c), arg, s) == [c] && NextArg(m, Literal(c), arg) == arg
    ensures ScratchFrom(m, Literal(c), arg, s, clear) == if clear then Zeroed() else s
  {
  }

  lemma NothingLeft(m: Machine, arg: nat, s: Scratch, clear: bool)
    ensures RenderFrom(m, [], arg, s, clear) == ""
    ensures LeftFrom(m, [], arg, s, clear) == s
  {
  }

  lemma Terminated(after: seq<char>, before: seq<char>, t: string)
    requires Emitted(after, before, 0, t) && |t| < |after|
    ensures after[|t| := NUL] == t + [NUL] + before[|t| + 1..]
  {
  }
}
