/** The archive walker (src/util/tar.c). */
module Tar {
  import opened Bits
  import opened Numerals
  import opened KHash
  import opened KString

  const BLOCK: nat := 512
  const FILENAME_MAX: nat := 100

  // ---------- Octal fields ----------

  function DigitValue(c: char): int {
    Signed(c) - 48
  }

  /** A field read as a number in positional notation: every character is a digit, first the most
      significant one. */
  function OctalValue(s: seq<char>): int {
    if s == [] then 0 else 8 * OctalValue(s[..|s| - 1]) + DigitValue(s[|s| - 1])
  }

  lemma {:induction false} OctalFromLeft(s: seq<char>)
    requires |s| > 0
    ensures OctalValue(s) == DigitValue(s[0]) * Power(8, |s| - 1) + OctalValue(s[1..])
  {
    hide DigitValue;
    if |s| == 1 {
      assert s[1..] == [] && s[..0] == [];
    } else {
      var t := s[..|s| - 1];
      OctalFromLeft(t);
      assert s[1..][..|s| - 2] == t[1..];
      TimesEight(DigitValue(s[0]), Power(8, |s| - 2));
    }
  }

  lemma TimesEight(d: int, p: int)
    ensures 8 * (d * p) == d * (8 * p)
  {
  }

  /** Reducing the operands first does not change a reduced sum of products. */
  lemma Mod32Sum(a: int, d: int, c: int)
    ensures Mod32(Mod32(a) + Mod32(Mod32(d) * Mod32(c))) == Mod32(a + d * c)
  {
    var i, j, k := a / U32, d / U32, c / U32;
    var x, y, z := Mod32(a), Mod32(d), Mod32(c);
    var l := (y * z) / U32;
    assert d * c == (U32 * j + y) * (U32 * k + z) == U32 * (j * (U32 * k + z) + y * k) + y * z;
    var q := i + j * (U32 * k + z) + y * k + l;
    assert a + d * c == U32 * q + (x + Mod32(y * z));
    Mod32Shift(x + Mod32(y * z), q);
    assert U32 * i + x == a;
  }

  /** tar_oct2dec: although the multiplier wraps round, the result is the value modulo 2^32. */
  method Oct2Dec(s: seq<char>, n: nat) returns (dec: nat)
    requires n <= |s|
    ensures dec == Mod32(OctalValue(s[..n]))
  {
    hide Mod32, OctalValue, DigitValue, Power;
    dec := 0;
    var j: nat, count := n, 1;
    OctalOfNothing();
    assert s[n..n] == [];
    while j > 0
      invariant j <= n && count == Mod32(Power(8, n - j)) && dec == Mod32(OctalValue(s[j..n]))
    {
      var d := DigitValue(s[j - 1]);
      OctalFromLeft(s[j - 1..n]);
      assert s[j - 1..n][1..] == s[j..n];
      Mod32Sum(OctalValue(s[j..n]), d, Power(8, n - j));
      NextPower(n - j);
      dec := Mod32(dec + Mod32(Mod32(d) * count));
      j := j - 1;
      count := Mod32(count * 8);
    }
    assert s[0..n] == s[..n];
  }

  lemma OctalOfNothing()
    ensures OctalValue([]) == 0 && Power(8, 0) == 1 && Mod32(0) == 0 && Mod32(1) == 1
  {
  }

  lemma NextPower(k: nat)
    ensures Mod32(Mod32(Power(8, k)) * 8) == Mod32(Power(8, k + 1))
  {
    var p := Power(8, k);
    Mod32Shift(Mod32(p) * 8, 8 * (p / U32));
  }

  /** v in n octal digits. */
  function Octal(v: nat, n: nat): (s: string)
    ensures |s| == n
  {
    if n == 0 then "" else Octal(v / 8, n - 1) + ['0' + (v % 8) as char]
  }

  lemma {:induction false} OctalDecodes(v: nat, n: nat)
    requires v < Power(8, n)
    ensures OctalValue(Octal(v, n)) == v
  {
    if n == 0 {
    } else {
      OctalDecodes(v / 8, n - 1);
      var s := Octal(v, n);
      assert s[..n - 1] == Octal(v / 8, n - 1);
    }
  }

  /** A field that ends in something else than a digit, such as a NUL or a space, is not read as
      the number before it. */
  lemma TerminatedField(v: nat, n: nat, c: char)
    requires v < Power(8, n) && v < U32
    ensures var read := Mod32(OctalValue(Octal(v, n) + [c]));
            && read == Mod32(8 * v + DigitValue(c))
            && (read == v <==> Mod32(7 * v + DigitValue(c)) == 0)
  {
    OctalDecodes(v, n);
    var s := Octal(v, n) + [c];
    assert s[..n] == Octal(v, n);
    hide Octal, Power, Mod32, DigitValue;
    SevenTimes(v, DigitValue(c));
  }

  lemma SevenTimes(v: nat, d: int)
    requires v < U32
    ensures Mod32(8 * v + d) == v <==> Mod32(7 * v + d) == 0
  {
    var x := 7 * v + d;
    assert x + v == U32 * (x / U32) + (x % U32 + v);
    if x % U32 == 0 {
      DivModUnique(x + v, U32, x / U32, v);
    } else if x % U32 + v < U32 {
      DivModUnique(x + v, U32, x / U32, x % U32 + v);
    } else {
      DivModUnique(x + v, U32, x / U32 + 1, x % U32 + v - U32);
    }
  }

  /** A field ended by NUL is read correctly for a single number only. */
  lemma NulEndedField(v: nat, n: nat)
    requires v < Power(8, n) && v < U32
    ensures Mod32(OctalValue(Octal(v, n) + [NUL])) == v <==> v == 1227133520
  {
    hide OctalValue, Power, Octal;
    TerminatedField(v, n, NUL);
    assert DigitValue(NUL) == -48;
  }

  // ---------- The walk ----------

  datatype TarFile = TarFile(filename: string, start: nat, hash: nat, mode: nat, size: nat, checksum: nat)

  /** The offset after a file, computed with 32-bit numbers. */
  function Advance(offset: nat, size: nat): nat {
    var past := Mod32(offset + Mod32((size / BLOCK + 1) * BLOCK));
    if size % BLOCK != 0 then Mod32(past + BLOCK) else past
  }

  function Padding(size: nat): (n: nat)
    ensures n < BLOCK && (size + n) % BLOCK == 0
  {
    if size % BLOCK == 0 then 0 else BLOCK - size % BLOCK
  }

  /** Short of wrapping round, a file takes its header and its data padded to whole blocks. */
  lemma AdvanceRounds(offset: nat, size: nat)
    requires offset + BLOCK + size + Padding(size) < U32
    ensures Advance(offset, size) == offset + BLOCK + size + Padding(size)
  {
  }

  lemma AdvanceAligned(offset: nat, size: nat)
    requires offset % BLOCK == 0
    ensures Advance(offset, size) % BLOCK == 0
  {
    Mod32Aligned((size / BLOCK + 1) * BLOCK);
    Mod32Aligned(offset + Mod32((size / BLOCK + 1) * BLOCK));
    Mod32Aligned(Mod32(offset + Mod32((size / BLOCK + 1) * BLOCK)) + BLOCK);
  }

  lemma Mod32Aligned(x: nat)
    requires x % BLOCK == 0
    ensures Mod32(x) % BLOCK == 0
  {
  }

  /** The filename field up to its NUL, or all of it. */
  function NameAt(archive: seq<char>, offset: nat): string
    requires offset <= |archive|
  {
    archive[offset..][..CopyLength(archive[offset..], FILENAME_MAX)]
  }

  function Field(archive: seq<char>, from: nat, n: nat): nat
    requires from + n <= |archive|
  {
    Mod32(OctalValue(archive[from..from + n]))
  }

  /** What the header at an offset says. */
  function FileAt(archive: seq<char>, address: nat, offset: nat): TarFile
    requires offset + BLOCK <= |archive|
  {
    TarFile(NameAt(archive, offset), address + offset + BLOCK, HashOf(NameAt(archive, offset)),
            Field(archive, offset + 100, 8), Field(archive, offset + 124, 12), Field(archive, offset + 148, 8))
  }

  predicate InMemory(archive: seq<char>, size: nat, address: nat) {
    size <= |archive| && |archive| % BLOCK == 0 && address + |archive| < U32
  }

  /** The files found from an offset on. */
  function Walk(archive: seq<char>, size: nat, address: nat, offset: nat, max: nat): (files: seq<TarFile>)
    requires InMemory(archive, size, address) && offset % BLOCK == 0
    ensures |files| <= max
    decreases max
  {
    if max == 0 || offset >= size || archive[offset] == NUL then []
    else
      var file := FileAt(archive, address, offset);
      AdvanceAligned(offset, file.size);
      [file] + Walk(archive, size, address, Advance(offset, file.size), max - 1)
  }

  lemma HeaderFits(archive: seq<char>, size: nat, address: nat, offset: nat)
    requires InMemory(archive, size, address) && offset % BLOCK == 0 && offset < size
    ensures offset + BLOCK <= |archive|
  {
  }

  lemma {:induction false} WalkStep(archive: seq<char>, size: nat, address: nat, offset: nat, max: nat)
    requires InMemory(archive, size, address) && offset % BLOCK == 0
    ensures max == 0 || offset >= size ==> Walk(archive, size, address, offset, max) == []
    ensures max > 0 && offset < size ==> offset + BLOCK <= |archive|
    ensures max > 0 && offset < size && archive[offset] == NUL ==> Walk(archive, size, address, offset, max) == []
    ensures max > 0 && offset < size && archive[offset] != NUL ==>
              var file := FileAt(archive, address, offset);
              && Advance(offset, file.size) % BLOCK == 0
              && Walk(archive, size, address, offset, max) ==
                   [file] + Walk(archive, size, address, Advance(offset, file.size), max - 1)
  {
    hide FileAt, Advance;
    if max > 0 && offset < size {
      HeaderFits(archive, size, address, offset);
      AdvanceAligned(offset, FileAt(archive, address, offset).size);
    }
  }

  /** tar_extract. */
  method TarExtract(files: array<TarFile>, maxFiles: nat, archive: seq<char>, size: nat, address: nat)
    returns (index: nat)
    requires maxFiles <= files.Length && InMemory(archive, size, address)
    modifies files
    ensures index == |Walk(archive, size, address, 0, maxFiles)|
    ensures files[..index] == Walk(archive, size, address, 0, maxFiles)
    ensures files[index..] == old(files[index..])
  {
    hide Advance, Walk, FileAt, InMemory;
    index := 0;
    var offset: nat := 0;
    while index < maxFiles && offset < size
      invariant index <= maxFiles && offset % BLOCK == 0
      invariant Walk(archive, size, address, 0, maxFiles) ==
                files[..index] + Walk(archive, size, address, offset, maxFiles - index)
      invariant files[index..] == old(files[index..])
    {
      WalkStep(archive, size, address, offset, maxFiles - index);
      if archive[offset] == NUL {
        break;
      }
      var file := ReadHeader(archive, address, offset);
      files[index] := file;
      offset := Advance(offset, file.size);
      index := index + 1;
      assert files[..index] == files[..index - 1] + [file];
    }
    WalkStep(archive, size, address, offset, maxFiles - index);
    assert files[..index] + [] == files[..index];
  }

  method ReadHeader(archive: seq<char>, address: nat, offset: nat) returns (file: TarFile)
    requires offset + BLOCK <= |archive|
    ensures file == FileAt(archive, address, offset)
  {
    hide OctalValue, HashOf, Mod32, CopyLength;
    var filename := new char[FILENAME_MAX + 1];
    var end := Copy(filename, 0, archive[offset..], FILENAME_MAX);
    var name := filename[..end];
    assert name == NameAt(archive, offset);
    NameIsClean(archive, offset);
    NameHash(filename[..], name);
    var hash := Hash32(filename[..], FILENAME_MAX);
    var mode := Oct2Dec(archive[offset + 100..offset + 108], 8);
    var length := Oct2Dec(archive[offset + 124..offset + 136], 12);
    var checksum := Oct2Dec(archive[offset + 148..offset + 156], 8);
    assert archive[offset + 100..offset + 108][..8] == archive[offset + 100..offset + 108];
    assert archive[offset + 124..offset + 136][..12] == archive[offset + 124..offset + 136];
    assert archive[offset + 148..offset + 156][..8] == archive[offset + 148..offset + 156];
    file := TarFile(name, address + offset + BLOCK, hash, mode, length, checksum);
  }

  lemma NameIsClean(archive: seq<char>, offset: nat)
    requires offset <= |archive|
    ensures NUL !in NameAt(archive, offset) && |NameAt(archive, offset)| <= FILENAME_MAX
  {
    var s := archive[offset..];
    assert forall c :: c in s[..CopyLength(s, FILENAME_MAX)] ==> c in s[..CLength(s)];
  }

  lemma NameHash(s: seq<char>, name: string)
    requires |name| < |s| && s[..|name|] == name && s[|name|] == NUL && NUL !in name && |name| <= FILENAME_MAX
    ensures CLength(s) == |name| && s[..CopyLength(s, FILENAME_MAX)] == name
  {
    CLengthIs(s, |name|);
  }

  // ---------- Any archive ----------

  predicate Inside(file: TarFile, address: nat, total: nat) {
    address <= file.start && file.start - address + file.size <= total
  }

  predicate AllInside(files: seq<TarFile>, address: nat, total: nat) {
    forall k :: 0 <= k < |files| ==> Inside(files[k], address, total)
  }

  lemma PaddedFits(offset: nat, size: nat, total: nat)
    requires offset % BLOCK == 0 && total % BLOCK == 0 && offset + BLOCK + size <= total
    ensures offset + BLOCK + size + Padding(size) <= total
  {
  }

  /** Whatever the archive holds: as long as the sizes it states stay inside it, the files found are
      in order and apart, and start at whole blocks. */
  lemma {:induction false} FoundInOrder(archive: seq<char>, size: nat, address: nat, offset: nat, max: nat, i: nat, j: nat)
    requires InMemory(archive, size, address) && offset % BLOCK == 0
    requires i < j < |Walk(archive, size, address, offset, max)|
    requires AllInside(Walk(archive, size, address, offset, max), address, |archive|)
    ensures var files := Walk(archive, size, address, offset, max);
            && files[i].start + files[i].size + BLOCK <= files[j].start
            && files[i].start >= address + offset + BLOCK
    decreases j
  {
    hide Walk, FileAt, Advance, InMemory, Padding;
    WalkStep(archive, size, address, offset, max);
    var files := Walk(archive, size, address, offset, max);
    StartOfFound(archive, address, offset);
    var file := files[0];
    var next, rest := Advance(offset, file.size), files[1..];
    assert Inside(file, address, |archive|);
    TotalIsWhole(archive, size, address);
    PaddedFits(offset, file.size, |archive|);
    AdvanceRounds(offset, file.size);
    assert rest == Walk(archive, size, address, next, max - 1);
    forall k | 0 <= k < |rest| ensures Inside(rest[k], address, |archive|) {
      assert rest[k] == files[k + 1];
    }
    WalkStep(archive, size, address, next, max - 1);
    StartOfFound(archive, address, next);
    if i > 0 {
      FoundInOrder(archive, size, address, next, max - 1, i - 1, j - 1);
    } else if j > 1 {
      FoundInOrder(archive, size, address, next, max - 1, 0, j - 1);
    }
  }

  /** No header is read from behind the size given, however long the memory is. */
  lemma {:induction false} FoundBelowSize(archive: seq<char>, size: nat, address: nat, offset: nat, max: nat, i: nat)
    requires InMemory(archive, size, address) && offset % BLOCK == 0
    requires i < |Walk(archive, size, address, offset, max)|
    ensures Walk(archive, size, address, offset, max)[i].start < address + size + 512
    decreases i
  {
    hide Walk, FileAt, Advance, InMemory;
    WalkStep(archive, size, address, offset, max);
    StartOfFound(archive, address, offset);
    var next := Advance(offset, Walk(archive, size, address, offset, max)[0].size);
    if i == 0 {
    } else {
      FoundBelowSize(archive, size, address, next, max - 1, i - 1);
    }
  }

  lemma TotalIsWhole(archive: seq<char>, size: nat, address: nat)
    requires InMemory(archive, size, address)
    ensures |archive| % BLOCK == 0 && |archive| < U32
  {
  }

  lemma StartOfFound(archive: seq<char>, address: nat, offset: nat)
    requires offset + BLOCK <= |archive|
    ensures FileAt(archive, address, offset).start == address + offset + BLOCK
  {
  }
}
