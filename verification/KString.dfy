/** String routines over character buffers (libk/kstring.c). A pointer is a buffer and an offset. */
module KString {
  import opened Wrappers
  import opened KChar
  import opened Numerals

  const NUL: char := '\0'
  const SIZE_MAX: nat := 0xFFFF_FFFF

  /** The number of characters before the first NUL. */
  function CLength(s: seq<char>): (n: nat)
    ensures n <= |s|
    ensures NUL !in s[..n]
    ensures n < |s| ==> s[n] == NUL
  {
    if s == [] || s[0] == NUL then 0 else 1 + CLength(s[1..])
  }

  /** The string that starts a piece of memory. */
  function CString(s: seq<char>): string {
    s[..CLength(s)]
  }

  lemma {:induction false} CLengthIs(s: seq<char>, n: nat)
    requires n < |s| && s[n] == NUL && NUL !in s[..n]
    ensures CLength(s) == n
  {
    if n == 0 {
    } else {
      assert s[0] == s[..n][0];
      assert forall c :: c in s[1..][..n - 1] ==> c in s[..n];
      CLengthIs(s[1..], n - 1);
    }
  }

  lemma {:induction false} NulBounds(s: seq<char>, i: nat)
    requires i < |s| && s[i] == NUL
    ensures CLength(s) <= i
  {
    if i == 0 {
    } else {
      NulBounds(s[1..], i - 1);
    }
  }

  lemma NoShorter(s: seq<char>, n: nat)
    requires n <= |s| && NUL !in s[..n]
    ensures CLength(s) >= n
  {
    assert forall k :: 0 <= k < n ==> s[..n][k] != NUL;
  }

  /** kstring_length. */
  method Length(a: array<char>, off: nat) returns (n: nat)
    requires off <= a.Length && NUL in a[off..]
    ensures n == CLength(a[off..])
  {
    n := 0;
    while a[off + n] != NUL
      invariant off + n < a.Length && NUL in a[off + n..]
      invariant forall k :: off <= k < off + n ==> a[k] != NUL
      decreases a.Length - (off + n)
    {
      assert a[off + n..] == [a[off + n]] + a[off + n + 1..];
      n := n + 1;
    }
    CLengthIs(a[off..], n);
  }

  /** How many characters a bounded copy takes. */
  function CopyLength(src: seq<char>, n: nat): (m: nat)
    ensures m <= n && m <= |src|
  {
    if CLength(src) < n then CLength(src) else n
  }

  /** kstring_copy: at most n characters of `src` up to its NUL, then a NUL. The character after
      the last one copied is looked at even when the limit has been reached. */
  method Copy(dst: array<char>, off: nat, src: seq<char>, n: nat) returns (end: nat)
    requires CLength(src) < |src| || n < |src|
    requires off + CopyLength(src, n) < dst.Length
    modifies dst
    ensures end == off + CopyLength(src, n)
    ensures forall k :: 0 <= k < dst.Length ==>
              dst[k] == if off <= k < end then src[k - off] else if k == end then NUL else old(dst[k])
  {
    var i := 0;
    while src[i] != NUL && i < n
      invariant 0 <= i <= CopyLength(src, n) && i < |src|
      invariant forall k :: 0 <= k < dst.Length ==> dst[k] == if off <= k < off + i then src[k - off] else old(dst[k])
      decreases n - i
    {
      assert i != CLength(src);
      dst[off + i] := src[i];
      i := i + 1;
    }
    if src[i] == NUL {
      NulBounds(src, i);
    }
    dst[off + i] := NUL;
    end := off + i;
  }

  // ---------- Reversing ----------

  /** The buffer holds t from `off` on, and what it held before everywhere else. */
  ghost predicate Wrote(a: array<char>, before: seq<char>, off: nat, t: seq<char>)
    reads a
  {
    && |before| == a.Length && off + |t| <= a.Length
    && forall k :: 0 <= k < a.Length ==> a[k] == if off <= k < off + |t| then t[k - off] else before[k]
  }

  function Reversed(s: seq<char>): (r: seq<char>)
    ensures |r| == |s| && forall i :: 0 <= i < |s| ==> r[i] == s[|s| - 1 - i]
  {
    if s == [] then [] else Reversed(s[1..]) + [s[0]]
  }

  /** The length without NULs at the end, but at least one. */
  function Trimmed(s: seq<char>): (m: nat)
    requires |s| > 0
    ensures 1 <= m <= |s|
    ensures m > 1 ==> s[m - 1] != NUL
    ensures forall k :: m <= k < |s| ==> s[k] == NUL
  {
    if |s| > 1 && s[|s| - 1] == NUL then Trimmed(s[..|s| - 1]) else |s|
  }

  /** kstring_reverse: turns round the n + 1 characters from `off` on, less the NULs that end them. */
  method Reverse(a: array<char>, off: nat, n: nat)
    requires off + n < a.Length
    modifies a
    ensures var m := Trimmed(old(a[off..off + n + 1]));
            Wrote(a, old(a[..]), off, Reversed(old(a[off..off + m])))
  {
    hide Wrote, Trimmed;
    var q := SkipNuls(a, off, n);
    SwapRange(a, off, q);
  }

  /** The place of the last character that is not NUL, or the first place. */
  method SkipNuls(a: array<char>, off: nat, n: nat) returns (q: nat)
    requires off + n < a.Length
    ensures off <= q <= off + n && q - off + 1 == Trimmed(a[off..off + n + 1])
  {
    ghost var s := a[off..off + n + 1];
    q := off + n;
    while a[q] == NUL && q > off
      invariant off <= q <= off + n
      invariant Trimmed(s) == Trimmed(s[..q - off + 1])
    {
      assert s[..q - off + 1][..q - off] == s[..q - off];
      q := q - 1;
    }
  }

  /** Exchanges the characters from p to q end for end. */
  method SwapRange(a: array<char>, p: nat, q: nat)
    requires p <= q < a.Length
    modifies a
    ensures Wrote(a, old(a[..]), p, Reversed(old(a[p..q + 1])))
  {
    hide Reversed;
    ghost var before := a[..];
    var i, j := p, q;
    while i < j
      invariant p <= i <= j + 1 <= q + 1 && i + j == p + q
      invariant forall k :: p <= k < i ==> a[k] == before[p + q - k]
      invariant forall k :: j < k <= q ==> a[k] == before[p + q - k]
      invariant forall k :: i <= k <= j ==> a[k] == before[k]
      invariant forall k :: 0 <= k < p || q < k < a.Length ==> a[k] == before[k]
    {
      a[i], a[j] := a[j], a[i];
      i := i + 1;
      j := j - 1;
    }
    ghost var slice := before[p..q + 1];
    forall k | p <= k <= q
      ensures a[k] == Reversed(slice)[k - p]
    {
      assert Reversed(slice)[k - p] == slice[q - k];
    }
  }

  /** What the reversal makes of a text and the byte after it. */
  lemma TurnedRound(s: string, x: char)
    requires |s| > 0 && NUL !in s
    ensures var t := s + [x]; var m := Trimmed(t);
            Reversed(t[..m]) + t[m..] == if x == NUL then Reversed(s) + [NUL] else [x] + Reversed(s)
  {
    var t := s + [x];
    if x == NUL {
      assert t[|s| - 1] in s;
      assert Trimmed(t) == |s|;
      assert t[..|s|] == s && t[|s|..] == [NUL];
    } else {
      assert Trimmed(t) == |t|;
      hide Trimmed;
      assert t[..|t|] == t && t[|t|..] == [];
      ReversedSnoc(s, x);
    }
  }

  lemma ReversedSnoc(s: string, x: char)
    ensures Reversed(s + [x]) == [x] + Reversed(s)
  {
    var r, t := Reversed(s + [x]), [x] + Reversed(s);
    assert forall i :: 0 <= i < |r| ==> r[i] == t[i];
  }

  lemma ReversedTwice(s: string)
    ensures Reversed(Reversed(s)) == s
  {
    var r := Reversed(Reversed(s));
    assert forall i :: 0 <= i < |r| ==> r[i] == s[i];
  }

  lemma ShiftedIsSame(t: string, x: char)
    ensures ([x] + t)[..|t|] == t <==> forall i :: 0 <= i < |t| ==> t[i] == x
  {
    var s := ([x] + t)[..|t|];
    if s == t {
      forall i | 0 <= i < |t|
        ensures t[i] == x
      {
        ShiftedChar(t, x, i);
      }
    } else {
      assert exists i :: 0 <= i < |t| && s[i] != t[i];
    }
  }

  lemma {:induction false} ShiftedChar(t: string, x: char, i: nat)
    requires i < |t| && ([x] + t)[..|t|] == t
    ensures t[i] == x
  {
    assert t[i] == ([x] + t)[i];
    if i == 0 {
    } else {
      ShiftedChar(t, x, i - 1);
    }
  }

  /** The text comes out reversed when the byte after it is NUL; what is left of an older, longer
      text there takes part in the reversal instead. */
  lemma ReverseNeedsTerminator(s: string, x: char)
    requires |s| > 0 && NUL !in s
    ensures (Reversed((s + [x])[..Trimmed(s + [x])]) + (s + [x])[Trimmed(s + [x])..])[..|s|] == Reversed(s)
       <==> x == NUL || forall i :: 0 <= i < |s| ==> s[i] == x
  {
    TurnedRound(s, x);
    hide Trimmed;
    if x == NUL {
      assert (Reversed(s) + [NUL])[..|s|] == Reversed(s);
    } else {
      ShiftedIsSame(Reversed(s), x);
      AllSame(s, x);
    }
  }

  lemma AllSame(s: string, x: char)
    ensures (forall i :: 0 <= i < |s| ==> Reversed(s)[i] == x) <==> forall i :: 0 <= i < |s| ==> s[i] == x
  {
    assert forall i :: 0 <= i < |s| ==> s[i] == Reversed(s)[|s| - 1 - i];
  }

  // ---------- Numbers ----------

  /** What is left in memory, from the first digit up to the byte after the last, when the digits
      of `ds` were stored least significant first in front of byte x and then reversed. */
  function Settled(ds: seq<nat>, upper: bool, x: char): (s: seq<char>)
    ensures |s| == |ds| + 1
  {
    var stored := Reversed(Text(ds, upper)) + [x];
    var m := Trimmed(stored);
    Reversed(stored[..m]) + stored[m..]
  }

  /** With a NUL behind them the digits settle into text. */
  lemma SettledIsText(ds: seq<nat>, upper: bool)
    requires |ds| > 0 && forall i :: 0 <= i < |ds| ==> ds[i] < 36
    ensures Settled(ds, upper, NUL) == Text(ds, upper) + [NUL]
  {
    var text := Text(ds, upper);
    TextIsAscii(ds, upper);
    var stored := Reversed(text) + [NUL];
    assert stored[|ds| - 1] == text[0] != NUL;
    assert Trimmed(stored) == |ds|;
    assert stored[..|ds|] == Reversed(text) && stored[|ds|..] == [NUL];
    ReversedTwice(text);
  }

  /** kstring_format_uintmax: at most n digits (but at least one), most significant first. */
  method FormatUintmax(buffer: array<char>, off: nat, n: nat, value: nat, base: int, upper: bool) returns (count: nat)
    requires value < UINTMAX_LIMIT
    requires base >= 2 ==> off + |TakenDigits(value, base, n)| < buffer.Length
    modifies buffer
    ensures base < 2 ==> count == 0 && buffer[..] == old(buffer[..])
    ensures base >= 2 ==>
              && count == |TakenDigits(value, base, n)|
              && Wrote(buffer, old(buffer[..]), off, Settled(TakenDigits(value, base, n), upper, old(buffer[off + count])))
  {
    if base < 2 {
      return 0;
    }
    hide Trimmed, Text, Reversed, TakenDigits, Settled, DigitChar;
    ghost var ds, before := TakenDigits(value, base, n), buffer[..];
    count := StoreDigits(buffer, off, n, value, base, upper);
    StoredText(buffer, before, off, ds, upper);
    StoredSlice(buffer, before, off, Reversed(Text(ds, upper)));
    hide Wrote;
    ghost var x := before[off + count];
    SettledForm(ds, upper, x);
    ReverseStored(buffer, off, count, before, Reversed(Text(ds, upper)) + [x]);
  }

  /** Reverses text t that has just been written, with the byte behind it. */
  method ReverseStored(buffer: array<char>, off: nat, n: nat, ghost before: seq<char>, ghost t: seq<char>)
    requires |t| == n + 1 && Wrote(buffer, before, off, t)
    modifies buffer
    ensures Wrote(buffer, before, off, Reversed(t[..Trimmed(t)]) + t[Trimmed(t)..])
  {
    hide Trimmed, Reversed;
    ghost var mid, r := buffer[..], Reversed(t[..Trimmed(t)]);
    assert buffer[off..off + n + 1] == t;
    assert buffer[off..off + Trimmed(t)] == t[..Trimmed(t)];
    Reverse(buffer, off, n);
    forall k | 0 <= k < buffer.Length
      ensures buffer[k] == if off <= k < off + |t| then (r + t[|r|..])[k - off] else before[k]
    {
      assert buffer[k] == if off <= k < off + |r| then r[k - off] else mid[k];
    }
  }

  lemma StoredSlice(buffer: array<char>, before: seq<char>, off: nat, t: seq<char>)
    requires Wrote(buffer, before, off, t) && off + |t| < buffer.Length
    ensures Wrote(buffer, before, off, t + [before[off + |t|]])
  {
  }

  lemma SettledForm(ds: seq<nat>, upper: bool, x: char)
    ensures var stored := Reversed(Text(ds, upper)) + [x]; var m := Trimmed(stored);
            Settled(ds, upper, x) == Reversed(stored[..m]) + stored[m..]
  {
  }

  /** The digits go to memory least significant first. */
  method StoreDigits(buffer: array<char>, off: nat, n: nat, value: nat, base: nat, upper: bool) returns (count: nat)
    requires base >= 2 && off + |TakenDigits(value, base, n)| < buffer.Length
    modifies buffer
    ensures count == |TakenDigits(value, base, n)|
    ensures forall k :: off <= k < off + count ==> buffer[k] == DigitChar(TakenDigits(value, base, n)[k - off], upper)
    ensures forall k :: 0 <= k < off || off + count <= k < buffer.Length ==> buffer[k] == old(buffer[k])
  {
    hide Digits, TakenDigits, DigitChar, Remainder, Quotient;
    ghost var all, ds := Digits(value, base), TakenDigits(value, base, n);
    TakenIsPrefix(value, base, n);
    var p, rest: nat := off, value;
    while true
      invariant off <= p < off + |ds| && (p == off || p < off + n)
      invariant all[p - off..] == Digits(rest, base)
      invariant forall k :: off <= k < p ==> buffer[k] == DigitChar(ds[k - off], upper)
      invariant forall k :: 0 <= k < off || p <= k < buffer.Length ==> buffer[k] == old(buffer[k])
      decreases off + |ds| - p
    {
      NextDigit(all, p - off, rest, base);
      assert ds[p - off] == all[p - off];
      buffer[p] := DigitChar(Remainder(rest, base), upper);
      p := p + 1;
      rest := Quotient(rest, base);
      if !(rest > 0 && p < off + n) {
        break;
      }
    }
    count := p - off;
  }

  lemma TakenIsPrefix(v: nat, base: nat, n: nat)
    requires base >= 2
    ensures |TakenDigits(v, base, n)| <= |Digits(v, base)|
    ensures |TakenDigits(v, base, n)| < |Digits(v, base)| ==> |TakenDigits(v, base, n)| == if n == 0 then 1 else n
    ensures n > 0 ==> |TakenDigits(v, base, n)| <= n
    ensures n == 0 ==> |TakenDigits(v, base, n)| == 1
    ensures forall i :: 0 <= i < |TakenDigits(v, base, n)| ==> TakenDigits(v, base, n)[i] == Digits(v, base)[i]
  {
    hide Digits;
  }

  lemma StoredText(buffer: array<char>, before: seq<char>, off: nat, ds: seq<nat>, upper: bool)
    requires |before| == buffer.Length && off + |ds| <= buffer.Length
    requires forall k :: off <= k < off + |ds| ==> buffer[k] == DigitChar(ds[k - off], upper)
    requires forall k :: 0 <= k < off || off + |ds| <= k < buffer.Length ==> buffer[k] == before[k]
    ensures Wrote(buffer, before, off, Reversed(Text(ds, upper)))
  {
    hide Reversed, Text, DigitChar;
    var stored := Reversed(Text(ds, upper));
    forall k | off <= k < off + |ds|
      ensures buffer[k] == stored[k - off]
    {
      assert stored[k - off] == Text(ds, upper)[|ds| - 1 - (k - off)];
    }
  }

  lemma NextDigit(all: seq<nat>, k: nat, rest: nat, base: nat)
    requires base >= 2 && k < |all| && all[k..] == Digits(rest, base)
    ensures all[k] == Remainder(rest, base)
    ensures if Quotient(rest, base) > 0 then k + 1 < |all| && all[k + 1..] == Digits(Quotient(rest, base), base)
            else k + 1 == |all|
  {
    DigitsStep(rest, base);
    hide Digits;
    assert all[k + 1..] == all[k..][1..];
  }

  /** kstring_format_intmax: a minus sign takes one of the n places. */
  method FormatIntmax(buffer: array<char>, off: nat, n: nat, i: int, base: int, upper: bool) returns (count: nat)
    requires INTMAX_MIN <= i <= INTMAX_MAX && n <= SIZE_MAX && off < buffer.Length
    requires base >= 2 ==>
               off + |Sign(i)| + |TakenDigits(Magnitude(i), base, PlacesLeft(i, n))| < buffer.Length
    modifies buffer
    ensures base < 2 ==> count == 0 && Wrote(buffer, old(buffer[..]), off, Sign(i))
    ensures base >= 2 ==>
              && var ds := TakenDigits(Magnitude(i), base, PlacesLeft(i, n));
              && count == |ds|
              && Wrote(buffer, old(buffer[..]), off, Sign(i) + Settled(ds, upper, old(buffer[off + |Sign(i)| + count])))
    ensures base >= 2 && n >= 2 ==> count + (if i < 0 then 1 else 0) <= n
  {
    hide Settled, TakenDigits;
    var u: int := i;
    var p := off;
    var m: nat := n;
    if i < 0 {
      buffer[p] := '-';
      p := p + 1;
      u := -i;
      m := (n - 1) % (SIZE_MAX + 1);
    }
    count := FormatUintmax(buffer, p, m, u, base, upper);
    if base >= 2 && n >= 2 {
      RoomIsKept(i, n, base);
    }
  }

  lemma RoomIsKept(i: int, n: nat, base: nat)
    requires base >= 2 && 2 <= n <= SIZE_MAX
    ensures |TakenDigits(Magnitude(i), base, PlacesLeft(i, n))| + (if i < 0 then 1 else 0) <= n
  {
    hide TakenDigits;
    TakenIsPrefix(Magnitude(i), base, PlacesLeft(i, n));
  }

  function Sign(i: int): string {
    if i < 0 then "-" else ""
  }

  function Magnitude(i: int): nat {
    if i < 0 then -i else i
  }

  function PlacesLeft(i: int, n: nat): nat {
    if i < 0 then (n - 1) % (SIZE_MAX + 1) else n
  }

  /** With room for every digit and a NUL behind them, kstring_format_intmax leaves exactly the
      printed number, NUL-terminated. */
  lemma FormattedIsPrinted(i: int, n: nat, base: nat, upper: bool)
    requires INTMAX_MIN <= i <= INTMAX_MAX && 2 <= base <= 36 && |Printed(i, base, upper)| <= n <= SIZE_MAX
    ensures Sign(i) + Settled(TakenDigits(Magnitude(i), base, PlacesLeft(i, n)), upper, NUL)
            == Printed(i, base, upper) + [NUL]
  {
    hide Digits, Settled, Text;
    var ds := Digits(Magnitude(i), base);
    assert TakenDigits(Magnitude(i), base, PlacesLeft(i, n)) == ds;
    SettledIsText(ds, upper);
  }

  /** kstring_parse_intmax. */
  method ParseIntmax(a: array<char>, off: nat, base: int) returns (number: int)
    requires off <= a.Length && NUL in a[off..] && Ascii(CString(a[off..]))
    ensures number == Parse(CString(a[off..]), base)
  {
    number := 0;
    var neg := false;
    if base < 2 {
      return 0;
    }
    hide Classes, Wrap64, ParseFrom, CString, Ascii;
    StringInMemory(a[..], off);
    ghost var s := CString(a[off..]);
    var p := off;
    if a[p] == '-' {
      neg := true;
      p := p + 1;
    }
    var ok: bool;
    ok, number := ParseLoop(a, p, base, if neg then s[1..] else s);
    if !ok {
      return 0;
    }
    if neg {
      return Wrap64(-number);
    }
  }

  /** A string in memory, and the same without its first character. */
  lemma StringInMemory(a: seq<char>, off: nat)
    requires off <= |a| && NUL in a[off..]
    ensures var s := CString(a[off..]);
            && off + |s| < |a| && a[off..off + |s|] == s && a[off + |s|] == NUL && NUL !in s
            && (s == [] ==> a[off] == NUL)
            && (s != [] ==> s[0] == a[off] && a[off + 1..off + |s|] == s[1..] && NUL !in s[1..])
            && (Ascii(s) && s != [] ==> Ascii(s[1..]))
  {
    CLengthInside(a[off..]);
  }

  /** The digits up to the NUL; not ok at the first character that is neither digit nor letter. */
  method ParseLoop(a: array<char>, start: nat, base: int, ghost t: string) returns (ok: bool, number: int)
    requires start + |t| < a.Length && a[start..start + |t|] == t && a[start + |t|] == NUL && NUL !in t && Ascii(t)
    ensures ParseFrom(0, t, base) == if ok then Some(number) else None
  {
    hide Classes, Wrap64, ParseFrom, ToUpperCase;
    var p := start;
    ok, number := true, 0;
    forall k | start <= k < start + |t|
      ensures a[k] == t[k - start] && a[k] != NUL
    {
      assert a[start..start + |t|][k - start] == a[k];
      assert t[k - start] in t;
    }
    while a[p] != NUL
      invariant start <= p <= start + |t|
      invariant ParseFrom(number, t[p - start..], base) == ParseFrom(0, t, base)
      decreases start + |t| - p
    {
      ghost var rest := t[p - start..];
      assert a[p] == t[p - start] == rest[0] && rest[1..] == t[p + 1 - start..];
      ParseStep(number, rest, base);
      var c := ToUpperCase(a[p]);
      var digit := 0;
      CaseConversion(a[p]);
      CaseConversion(c);
      if IsDigit(c) {
        digit := (c - '0') as int;
      } else if IsAlpha(c) {
        digit := (c - 'A') as int + 10;
      } else {
        ok := false;
        return;
      }
      number := Wrap64(number * base);
      number := Wrap64(number + digit);
      p := p + 1;
    }
    ParseStep(number, t[p - start..], base);
  }

  lemma {:induction false} CLengthInside(s: seq<char>)
    requires NUL in s
    ensures CLength(s) < |s| && s[CLength(s)] == NUL
    ensures forall i :: 0 <= i < CLength(s) ==> s[i] != NUL
  {
    assert s[..|s|] == s;
    forall i | 0 <= i < CLength(s)
      ensures s[i] != NUL
    {
      assert s[i] == s[..CLength(s)][i];
    }
  }

  /** The imperative printer and parser undo each other through memory. */
  method FormatThenParse(buffer: array<char>, off: nat, n: nat, v: int, base: nat, upper: bool) returns (r: int)
    requires INTMAX_MIN <= v <= INTMAX_MAX && 2 <= base <= 36
    requires |Printed(v, base, upper)| <= n <= SIZE_MAX && off + |Printed(v, base, upper)| < buffer.Length
    requires buffer[off + |Printed(v, base, upper)|] == NUL
    modifies buffer
    ensures r == v
  {
    hide Settled, Printed, TakenDigits, Wrote, Parse, CLength;
    PrintParse(v, base, upper);
    FormattedIsPrinted(v, n, base, upper);
    PlacesTaken(v, n, base, upper);
    var _ := FormatIntmax(buffer, off, n, v, base, upper);
    StringWritten(buffer, old(buffer[..]), off, Printed(v, base, upper));
    r := ParseIntmax(buffer, off, base);
  }

  lemma PlacesTaken(v: int, n: nat, base: nat, upper: bool)
    requires INTMAX_MIN <= v <= INTMAX_MAX && 2 <= base <= 36 && |Printed(v, base, upper)| <= n <= SIZE_MAX
    ensures |Sign(v)| + |TakenDigits(Magnitude(v), base, PlacesLeft(v, n))| == |Printed(v, base, upper)|
  {
    hide Digits, Text;
  }

  lemma StringWritten(a: array<char>, before: seq<char>, off: nat, t: string)
    requires Wrote(a, before, off, t + [NUL]) && NUL !in t
    ensures NUL in a[off..] && CString(a[off..]) == t
  {
    assert a[off..][..|t|] == t;
    CLengthIs(a[off..], |t|);
  }
}
