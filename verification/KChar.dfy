/** Character classes and case conversion for 7-bit characters (libk/kchar.c). */
module KChar {

  datatype Class = Alnum | Alpha | Blank | Cntrl | Digit | Graph | Lower | Print | Punct | Space | Upper | Xdigit

  type ascii = c: char | c < 128 as char witness 'a'

  /** The classification table. */
  function Classes(c: ascii): set<Class> {
    if c <= 8 as char then {Cntrl}
    else if c <= 14 as char then {Cntrl, Space}
    else if c <= 31 as char then {Cntrl}
    else if c == ' ' then {Space, Print}
    else if c <= '/' then {Punct, Graph, Print}
    else if c <= '9' then {Digit, Xdigit, Alnum, Graph, Print}
    else if c <= '@' then {Punct, Graph, Print}
    else if c <= 'F' then {Upper, Alpha, Alnum, Graph, Print, Xdigit}
    else if c <= 'Z' then {Upper, Alpha, Alnum, Graph, Print}
    else if c <= '`' then {Punct, Graph, Print}
    else if c <= 'f' then {Lower, Alpha, Alnum, Graph, Print, Xdigit}
    else if c <= 'z' then {Lower, Alpha, Alnum, Graph, Print}
    else if c <= '~' then {Punct, Graph, Print}
    else {Cntrl}
  }

  predicate IsAlpha(c: ascii) {
    Alpha in Classes(c)
  }

  predicate IsDigit(c: ascii) {
    Digit in Classes(c)
  }

  predicate IsLowerCase(c: ascii) {
    Lower in Classes(c)
  }

  predicate IsUpperCase(c: ascii) {
    Upper in Classes(c)
  }

  function ToLowerCase(c: ascii): ascii {
    if !IsAlpha(c) || IsLowerCase(c) then c else c - 'A' + 'a'
  }

  function ToUpperCase(c: ascii): ascii {
    if !IsAlpha(c) || IsUpperCase(c) then c else c - 'a' + 'A'
  }

  /** The table classes agree with the ranges of the character set, letters have exactly one case,
      and the two conversions undo each other on letters and leave the rest alone. */
  lemma CaseConversion(c: ascii)
    ensures IsDigit(c) <==> '0' <= c <= '9'
    ensures IsAlpha(c) <==> ('A' <= c <= 'Z' || 'a' <= c <= 'z')
    ensures IsAlpha(c) <==> IsUpperCase(c) != IsLowerCase(c)
    ensures ToUpperCase(ToLowerCase(c)) == ToUpperCase(c) == ToUpperCase(ToUpperCase(c))
    ensures ToLowerCase(ToUpperCase(c)) == ToLowerCase(c) == ToLowerCase(ToLowerCase(c))
    ensures IsUpperCase(c) ==> ToUpperCase(ToLowerCase(c)) == c && ToLowerCase(c) != c
    ensures IsLowerCase(c) ==> ToLowerCase(ToUpperCase(c)) == c && ToUpperCase(c) != c
    ensures !IsAlpha(c) ==> ToUpperCase(c) == c == ToLowerCase(c)
  {
    assert 8 as char < 14 as char < 31 as char < ' ' < '/' < '9' < '@' < 'F' < 'Z' < '`' < 'f' < 'z' < '~';
  }

  /** The other classes of the table by ranges: character 14 counts as space, and none as blank. */
  lemma OtherClasses(c: ascii)
    ensures Xdigit in Classes(c) <==> '0' <= c <= '9' || 'A' <= c <= 'F' || 'a' <= c <= 'f'
    ensures Alnum in Classes(c) <==> '0' <= c <= '9' || 'A' <= c <= 'Z' || 'a' <= c <= 'z'
    ensures Upper in Classes(c) <==> 'A' <= c <= 'Z'
    ensures Lower in Classes(c) <==> 'a' <= c <= 'z'
    ensures Graph in Classes(c) <==> '!' <= c <= '~'
    ensures Print in Classes(c) <==> ' ' <= c <= '~'
    ensures Punct in Classes(c) <==> Graph in Classes(c) && Alnum !in Classes(c)
    ensures Space in Classes(c) <==> c == ' ' || 9 as char <= c <= 14 as char
    ensures Cntrl in Classes(c) <==> c < ' ' || c == 127 as char
    ensures Blank !in Classes(c)
  {
  }
}
