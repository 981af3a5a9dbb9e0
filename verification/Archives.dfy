/** Archives as an encoder lays them out (POSIX.1, pax utility, "ustar Interchange Format"), and
    what the walker of src/util/tar.c reads back from them. */
module Archives {
  import opened Numerals
  import opened KHash
  import opened KString
  import opened Tar

  /** A file and the parts of its header that the walker does not look at. */
  datatype Entry = Entry(name: string, mode: nat, owner: seq<char>, data: seq<char>, mtime: seq<char>,
                         checksum: nat, rest: seq<char>)

  /** The fields fit in their places when numbers take the full width. */
  predicate Storable(e: Entry) {
    && 0 < |e.name| <= FILENAME_MAX && NUL !in e.name
    && e.mode < 0x100_0000 && e.checksum < 0x100_0000
    && |e.owner| == 16 && |e.mtime| == 12 && |e.rest| == 356
  }

  function Zeros(n: nat): (s: seq<char>)
    ensures |s| == n && forall i :: 0 <= i < n ==> s[i] == NUL
  {
    if n == 0 then [] else [NUL] + Zeros(n - 1)
  }

  function Header(e: Entry): (h: seq<char>)
    requires Storable(e)
    ensures |h| == BLOCK
  {
    e.name + Zeros(FILENAME_MAX - |e.name|) +
    (Octal(e.mode, 8) + (e.owner + (Octal(|e.data|, 12) + (e.mtime + (Octal(e.checksum, 8) + e.rest)))))
  }

  function Block(e: Entry): (b: seq<char>)
    requires Storable(e)
    ensures |b| == BLOCK + |e.data| + Padding(|e.data|)
  {
    Header(e) + (e.data + Zeros(Padding(|e.data|)))
  }

  predicate AllStorable(es: seq<Entry>) {
    forall i :: 0 <= i < |es| ==> Storable(es[i])
  }

  function Encode(es: seq<Entry>): seq<char>
    requires AllStorable(es)
  {
    if es == [] then [] else Block(es[0]) + Encode(es[1..])
  }

  lemma WholeBlocks(m: nat, n: nat)
    requires m % BLOCK == 0 && n % BLOCK == 0
    ensures (m + n) % BLOCK == 0
  {
  }

  lemma BlockIsWhole(e: Entry)
    requires Storable(e)
    ensures |Block(e)| % BLOCK == 0
  {
    hide Block;
    WholeBlocks(BLOCK, |e.data| + Padding(|e.data|));
  }

  lemma {:induction false} EncodeIsWhole(es: seq<Entry>)
    requires AllStorable(es)
    ensures |Encode(es)| % BLOCK == 0
  {
    hide Block;
    if es == [] {
    } else {
      BlockIsWhole(es[0]);
      EncodeIsWhole(es[1..]);
      WholeBlocks(|Block(es[0])|, |Encode(es[1..])|);
    }
  }

  /** What ends an archive: nothing, or blocks of which the first starts with NUL. */
  predicate Trailer(s: seq<char>) {
    |s| % BLOCK == 0 && (s == [] || s[0] == NUL)
  }

  function Record(e: Entry, address: nat, offset: nat): TarFile {
    TarFile(e.name, address + offset + BLOCK, HashOf(e.name), e.mode, |e.data|, e.checksum)
  }

  /** What a listing of the entries should say when the first of them starts at an offset. */
  function Listing(es: seq<Entry>, address: nat, offset: nat): (files: seq<TarFile>)
    requires AllStorable(es)
    ensures |files| == |es|
  {
    if es == [] then []
    else [Record(es[0], address, offset)] + Listing(es[1..], address, offset + |Block(es[0])|)
  }

  // ---------- Reading one header ----------

  lemma Parts(a: seq<char>, b: seq<char>)
    ensures (a + b)[..|a|] == a && (a + b)[|a|..] == b
  {
  }

  /** A piece of a piece. */
  lemma Slice(s: seq<char>, i: nat, j: nat, n: nat)
    requires i + j + n <= |s|
    ensures s[i..][j..j + n] == s[i + j..i + j + n] && s[i..][j..] == s[i + j..]
  {
  }

  lemma PieceOfPiece(s: seq<char>, i: nat, n: nat, j: nat, k: nat)
    requires i + n <= |s| && j <= k <= n
    ensures s[i..i + n][j..k] == s[i + j..i + k]
  {
    var t, u := s[i..i + n][j..k], s[i + j..i + k];
    assert |t| == |u| && forall x :: 0 <= x < |t| ==> t[x] == u[x];
  }

  /** The next part of a sequence whose rest is known. */
  lemma Peel(s: seq<char>, i: nat, a: seq<char>, rest: seq<char>)
    requires i <= |s| && s[i..] == a + rest
    ensures i + |a| <= |s| && s[i..i + |a|] == a && s[i + |a|..] == rest
  {
    Slice(s, i, 0, |a|);
    Slice(s, i, |a|, 0);
    Parts(a, rest);
  }

  lemma HeaderFields(e: Entry)
    requires Storable(e)
    ensures var h := Header(e);
            && h[..|e.name|] == e.name && (|e.name| < FILENAME_MAX ==> h[|e.name|] == NUL)
            && h[100..108] == Octal(e.mode, 8) && h[124..136] == Octal(|e.data|, 12) && h[148..156] == Octal(e.checksum, 8)
  {
    var h, name := Header(e), e.name + Zeros(FILENAME_MAX - |e.name|);
    var check := Octal(e.checksum, 8) + e.rest;
    var size := Octal(|e.data|, 12) + (e.mtime + check);
    var mode := Octal(e.mode, 8) + (e.owner + size);
    HeaderIs(e);
    hide Octal, Header, Zeros;
    assert h == h[0..];
    Peel(h, 0, name, mode);
    Peel(h, 100, Octal(e.mode, 8), e.owner + size);
    Peel(h, 108, e.owner, size);
    Peel(h, 124, Octal(|e.data|, 12), e.mtime + check);
    Peel(h, 136, e.mtime, check);
    Peel(h, 148, Octal(e.checksum, 8), e.rest);
    assert h[..100] == name;
    assert h[..|e.name|] == name[..|e.name|] == e.name;
    assert |e.name| < FILENAME_MAX ==> h[|e.name|] == name[|e.name|];
  }

  lemma HeaderIs(e: Entry)
    requires Storable(e)
    ensures Header(e) ==
      e.name + Zeros(FILENAME_MAX - |e.name|) +
      (Octal(e.mode, 8) + (e.owner + (Octal(|e.data|, 12) + (e.mtime + (Octal(e.checksum, 8) + e.rest)))))
  {
  }

  lemma SmallNumbers()
    ensures Power(8, 8) == 0x100_0000 && Power(8, 12) == 0x10_0000_0000
  {
    assert Power(8, 4) == 4096 by { assert Power(8, 2) == 64; }
    assert Power(8, 8) == 0x100_0000 by { assert Power(8, 6) == 0x4_0000; }
    assert Power(8, 10) == 0x4000_0000;
  }

  lemma NumberRead(v: nat, n: nat)
    requires v < Power(8, n) && v < U32
    ensures Mod32(OctalValue(Octal(v, n))) == v
  {
    OctalDecodes(v, n);
  }

  /** The walker reads from a header what the encoder put there. */
  lemma RecordRead(archive: seq<char>, address: nat, offset: nat, e: Entry)
    requires Storable(e) && |e.data| < U32
    requires offset + BLOCK <= |archive| && archive[offset..offset + BLOCK] == Header(e)
    ensures FileAt(archive, address, offset) == Record(e, address, offset)
    ensures archive[offset] != NUL
  {
    hide Octal, Header, OctalValue, HashOf, Mod32, Power;
    HeaderFields(e);
    SmallNumbers();
    NumberRead(e.mode, 8);
    NumberRead(|e.data|, 12);
    NumberRead(e.checksum, 8);
    var h := archive[offset..offset + BLOCK];
    PieceOfPiece(archive, offset, BLOCK, 100, 108);
    PieceOfPiece(archive, offset, BLOCK, 124, 136);
    PieceOfPiece(archive, offset, BLOCK, 148, 156);
    NameRead(archive, offset, e.name);
    assert archive[offset] == h[..|e.name|][0];
  }

  lemma NameRead(archive: seq<char>, offset: nat, name: string)
    requires offset + BLOCK <= |archive| && |name| <= FILENAME_MAX && NUL !in name
    requires archive[offset..offset + BLOCK][..|name|] == name
    requires |name| < FILENAME_MAX ==> archive[offset..offset + BLOCK][|name|] == NUL
    ensures NameAt(archive, offset) == name
  {
    var s := archive[offset..];
    assert s[..|name|] == name;
    if |name| < FILENAME_MAX {
      CLengthIs(s, |name|);
    } else {
      NoShorter(s, FILENAME_MAX);
    }
  }

  // ---------- Round trip ----------

  function Least(a: nat, b: nat): nat {
    if a < b then a else b
  }

  lemma BlockAt(before: seq<char>, b: seq<char>, after: seq<char>)
    ensures before + (b + after) == (before + b) + after
    ensures (before + (b + after))[|before|..|before| + |b|] == b
  {
  }

  /** From any archive the encoder made, whatever stands before it, the walker lists the entries
      from there on: all of them, or as many as there is room for. */
  lemma {:induction false} WalkReads(before: seq<char>, es: seq<Entry>, trailer: seq<char>, address: nat, max: nat)
    requires |before| % BLOCK == 0 && AllStorable(es) && Trailer(trailer)
    requires address + |before + (Encode(es) + trailer)| < U32
    ensures var archive := before + (Encode(es) + trailer);
            && InMemory(archive, |archive|, address)
            && Walk(archive, |archive|, address, |before|, max) == Listing(es[..Least(max, |es|)], address, |before|)
    decreases |es|
  {
    hide Block, FileAt, Walk, Advance, Record, Encode, Listing, InMemory, Padding;
    var archive := before + (Encode(es) + trailer);
    ArchiveIsWhole(before, es, trailer, address);
    WalkStep(archive, |archive|, address, |before|, max);
    if es == [] {
      assert Encode(es) + trailer == trailer by { EncodeStep(es); }
      assert es[..Least(max, |es|)] == [];
      ListingOfNothing(address, |before|);
    } else if max > 0 {
      var e := es[0];
      var after := Encode(es[1..]) + trailer;
      assert Encode(es) + trailer == Block(e) + after by { EncodeStep(es); }
      BlockAt(before, Block(e), after);
      EntryRead(before, e, after, address);
      BlockIsWhole(e);
      WholeBlocks(|before|, |Block(e)|);
      WalkReads(before + Block(e), es[1..], trailer, address, max - 1);
      ListingStep(es, address, |before|, max);
      RecordSize(e, address, |before|);
    } else {
      assert es[..0] == [];
      ListingOfNothing(address, |before|);
    }
  }

  lemma ArchiveIsWhole(before: seq<char>, es: seq<Entry>, trailer: seq<char>, address: nat)
    requires |before| % BLOCK == 0 && AllStorable(es) && Trailer(trailer)
    requires address + |before + (Encode(es) + trailer)| < U32
    ensures var archive := before + (Encode(es) + trailer); InMemory(archive, |archive|, address)
  {
    hide Encode;
    EncodeIsWhole(es);
    WholeBlocks(|Encode(es)|, |trailer|);
    WholeBlocks(|before|, |Encode(es) + trailer|);
  }

  lemma EncodeStep(es: seq<Entry>)
    requires AllStorable(es)
    ensures es == [] ==> Encode(es) == []
    ensures es != [] ==> Encode(es) == Block(es[0]) + Encode(es[1..])
  {
    hide Block;
  }

  lemma ListingOfNothing(address: nat, offset: nat)
    ensures Listing([], address, offset) == []
  {
  }

  lemma RecordSize(e: Entry, address: nat, offset: nat)
    ensures Record(e, address, offset).size == |e.data|
    ensures Record(e, address, offset).start == address + offset + BLOCK
  {
  }

  lemma ListingStep(es: seq<Entry>, address: nat, offset: nat, max: nat)
    requires AllStorable(es) && es != [] && max > 0
    ensures Listing(es[..Least(max, |es|)], address, offset) ==
              [Record(es[0], address, offset)]
              + Listing(es[1..][..Least(max - 1, |es| - 1)], address, offset + |Block(es[0])|)
  {
    hide Block, Record;
    assert es[..Least(max, |es|)][1..] == es[1..][..Least(max - 1, |es| - 1)];
  }

  /** Reading the entry that stands after `before` leads to the end of its blocks. */
  lemma EntryRead(before: seq<char>, e: Entry, after: seq<char>, address: nat)
    requires Storable(e) && |before + (Block(e) + after)| < U32
    ensures var archive, offset := before + (Block(e) + after), |before|;
            && offset + BLOCK <= |archive| && archive[offset] != NUL
            && FileAt(archive, address, offset) == Record(e, address, offset)
            && Advance(offset, |e.data|) == offset + |Block(e)|
  {
    hide FileAt, Record, Advance, Header;
    var archive, offset := before + (Block(e) + after), |before|;
    BlockAt(before, Block(e), after);
    assert archive[offset..offset + BLOCK] == archive[offset..offset + |Block(e)|][..BLOCK];
    Parts(Header(e), e.data + Zeros(Padding(|e.data|)));
    RecordRead(archive, address, offset, e);
    AdvanceRounds(offset, |e.data|);
  }

  /** tar_extract of an encoded archive: the first entries, with their names, modes, sizes and starts. */
  lemma ArchiveRoundTrip(es: seq<Entry>, trailer: seq<char>, address: nat, max: nat)
    requires AllStorable(es) && Trailer(trailer) && address + |Encode(es) + trailer| < U32
    ensures var archive := Encode(es) + trailer;
            && InMemory(archive, |archive|, address)
            && Walk(archive, |archive|, address, 0, max) == Listing(es[..Least(max, |es|)], address, 0)
  {
    assert [] + (Encode(es) + trailer) == Encode(es) + trailer;
    WalkReads([], es, trailer, address, max);
  }

  lemma DataInBlock(e: Entry)
    requires Storable(e)
    ensures Block(e)[BLOCK..BLOCK + |e.data|] == e.data
  {
    Parts(Header(e), e.data + Zeros(Padding(|e.data|)));
    Parts(e.data, Zeros(Padding(|e.data|)));
    Slice(Block(e), BLOCK, 0, |e.data|);
  }

  /** Where the k-th entry is. */
  function OffsetOf(es: seq<Entry>, k: nat): nat
    requires AllStorable(es) && k < |es|
    decreases k
  {
    if k == 0 then 0 else |Block(es[0])| + OffsetOf(es[1..], k - 1)
  }

  lemma {:induction false} ListingAt(es: seq<Entry>, address: nat, offset: nat, k: nat)
    requires AllStorable(es) && k < |es|
    ensures Listing(es, address, offset)[k] == Record(es[k], address, offset + OffsetOf(es, k))
    ensures OffsetOf(es, k) % BLOCK == 0
    decreases k
  {
    hide Block, Record;
    if k == 0 {
    } else {
      BlockIsWhole(es[0]);
      ListingAt(es[1..], address, offset + |Block(es[0])|, k - 1);
      WholeBlocks(|Block(es[0])|, OffsetOf(es[1..], k - 1));
    }
  }

  lemma {:induction false} OffsetsApart(es: seq<Entry>, i: nat, j: nat)
    requires AllStorable(es) && i < j < |es|
    ensures OffsetOf(es, i) + BLOCK + |es[i].data| <= OffsetOf(es, j)
    decreases i
  {
    hide Block;
    if i == 0 {
    } else {
      OffsetsApart(es[1..], i - 1, j - 1);
    }
  }

  lemma {:induction false} BlockFound(before: seq<char>, es: seq<Entry>, after: seq<char>, k: nat)
    requires AllStorable(es) && k < |es|
    ensures var archive, offset := before + (Encode(es) + after), |before| + OffsetOf(es, k);
            && offset + |Block(es[k])| <= |before| + |Encode(es)| <= |archive|
            && archive[offset..offset + |Block(es[k])|] == Block(es[k])
    decreases k
  {
    hide Block;
    var rest := Encode(es[1..]) + after;
    assert Encode(es) + after == Block(es[0]) + rest;
    BlockAt(before, Block(es[0]), rest);
    if k == 0 {
    } else {
      BlockFound(before + Block(es[0]), es[1..], after, k - 1);
    }
  }

  /** The data of the k-th file stand in the archive where the listing says. */
  lemma DataFound(es: seq<Entry>, trailer: seq<char>, address: nat, k: nat)
    requires AllStorable(es) && k < |es|
    ensures var archive, file := Encode(es) + trailer, Listing(es, address, 0)[k];
            && file.filename == es[k].name && file.mode == es[k].mode && file.size == |es[k].data|
            && var from := file.start - address;
               0 <= from <= from + file.size <= |Encode(es)| && archive[from..from + file.size] == es[k].data
  {
    hide Block, Listing, Encode, OffsetOf;
    ListingAt(es, address, 0, k);
    BlockFound([], es, trailer, k);
    assert [] + (Encode(es) + trailer) == Encode(es) + trailer;
    DataInBlock(es[k]);
    PieceOfPiece(Encode(es) + trailer, OffsetOf(es, k), |Block(es[k])|, BLOCK, BLOCK + |es[k].data|);
  }

  /** Files follow each other in order with room for a header between them, all at whole blocks from
      the start of the archive. */
  lemma FilesAreApart(es: seq<Entry>, address: nat, i: nat, j: nat)
    requires AllStorable(es) && i < j < |es|
    ensures var files := Listing(es, address, 0);
            && files[i].start + files[i].size + BLOCK <= files[j].start
            && (files[i].start - address) % BLOCK == 0
  {
    hide Listing, OffsetOf;
    ListingAt(es, address, 0, i);
    ListingAt(es, address, 0, j);
    OffsetsApart(es, i, j);
    WholeBlocks(OffsetOf(es, i), BLOCK);
  }
}
