/** The copy loops with the counters and cursors that the code has (libk/kmemory_copy.h,
    libk/kmemory.c). An access behind the memory, or to page 0, faults. */
module CopyAsWritten {
  import opened MemoryCopy

  const PAGE_SIZE: nat := 0x1000
  const SIZE_LIMIT: nat := 0x1_0000_0000
  const SIZE_MAX: nat := SIZE_LIMIT - 1

  /** How a loop ends: with a fault, or with memory, cursors and counter. */
  datatype Outcome = Fault | Left(mem: seq<Byte>, dst: int, src: int, n: nat)

  /** One less, wrapping round. */
  function Less(n: nat): nat {
    if n == 0 then SIZE_MAX else n - 1
  }

  predicate Mapped(mem: seq<Byte>, p: int, size: nat) {
    PAGE_SIZE <= p && p + size <= |mem|
  }

  /** The alignment test as written: it asks for high bits, not for low ones. */
  predicate HighBits(p: int) {
    p >= 8
  }

  /** The first loop of internal_copy_forwards: every round counts twice. */
  function Bytes(mem: seq<Byte>, dst: int, src: int, n: nat): Outcome
    decreases if dst < |mem| then |mem| - dst else 0
  {
    var left := Less(n);
    if n == 0 || !HighBits(dst) || !HighBits(src) then Left(mem, dst, src, left)
    else if !Mapped(mem, dst, 1) || !Mapped(mem, src, 1) then Fault
    else Bytes(mem[dst := mem[src]], dst + 1, src + 1, Less(left))
  }

  /** The first loop of internal_copy_backwards: the cursors start one past the last byte. */
  function BytesDown(mem: seq<Byte>, dst: int, src: int, n: nat): Outcome
    decreases if dst > 0 then dst else 0
  {
    var left := Less(n);
    if n == 0 || !HighBits(dst) || !HighBits(src) then Left(mem, dst, src, left)
    else if !Mapped(mem, dst, 1) || !Mapped(mem, src, 1) then Fault
    else BytesDown(mem[dst := mem[src]], dst - 1, src - 1, Less(left))
  }

  /** The word loops: four words a round while more than four are counted, then one. Every word counts
      one. The cursors move by `step` bytes. */
  function Words(mem: seq<Byte>, dst: int, src: int, n: nat, step: int): Outcome
    decreases n
  {
    if n == 0 then Left(mem, dst, src, 0)
    else if !Mapped(mem, dst, WORD) || !Mapped(mem, src, WORD) then Fault
    else Words(PutWord(mem, dst, src), dst + step, src + step, n - 1, step)
  }

  /** internal_copy_forwards; after the word loops no byte is counted any more. */
  function Forwards(mem: seq<Byte>, dst: int, src: int, n: nat): Outcome {
    match Bytes(mem, dst, src, n)
    case Fault => Fault
    case Left(m, d, s, left) => Words(m, d, s, left, WORD)
  }

  function Backwards(mem: seq<Byte>, dst: int, src: int, n: nat): Outcome {
    match BytesDown(mem, (dst + n) % SIZE_LIMIT, (src + n) % SIZE_LIMIT, n)
    case Fault => Fault
    case Left(m, d, s, left) => Words(m, d, s, left, -8)
  }

  /** kmemory_copy. */
  function CopyWritten(mem: seq<Byte>, dst: nat, src: nat, n: nat): Outcome {
    if dst == src then Left(mem, dst, src, n)
    else if dst < src || dst >= src + n then Forwards(mem, dst, src, n)
    else Backwards(mem, dst + n, src + n, n)
  }

  // ---------- The counter ----------

  /** The first loop copies half of an even number of bytes and leaves the counter at its greatest. */
  lemma {:induction false} HalfIsCopied(mem: seq<Byte>, dst: nat, src: nat, m: nat)
    requires Mapped(mem, dst, m) && Mapped(mem, src, m) && 2 * m < SIZE_LIMIT
    ensures Bytes(mem, dst, src, 2 * m) == Left(Forward(mem, dst, src, m), dst + m, src + m, SIZE_MAX)
    decreases m
  {
    if m == 0 {
    } else {
      var next := mem[dst := mem[src]];
      HalfIsCopied(next, dst + 1, src + 1, m - 1);
      FirstByte(mem, dst, src, m);
    }
  }

  /** Copying m bytes starts with the first. */
  lemma FirstByte(mem: seq<Byte>, dst: nat, src: nat, m: nat)
    requires 0 < m && dst + m <= |mem| && src + m <= |mem|
    ensures Forward(mem[dst := mem[src]], dst + 1, src + 1, m - 1) == Forward(mem, dst, src, m)
  {
    ForwardSplit(mem, dst, src, 1, m - 1);
    assert Forward(mem, dst, src, 1) == mem[dst := mem[src]];
  }

  /** Upwards the first loop leaves the cursors where they are or moves them up; a counter that it
      leaves is the greatest. */
  lemma {:induction false} BytesEnd(mem: seq<Byte>, dst: int, src: int, n: nat)
    requires PAGE_SIZE <= dst && PAGE_SIZE <= src && n < SIZE_LIMIT
    ensures var r := Bytes(mem, dst, src, n);
            r.Left? ==> r.n == SIZE_MAX && |r.mem| == |mem| && r.dst >= dst
    decreases if dst < |mem| then |mem| - dst else 0
  {
    if n == 0 || !Mapped(mem, dst, 1) || !Mapped(mem, src, 1) {
    } else {
      BytesEnd(mem[dst := mem[src]], dst + 1, src + 1, Less(Less(n)));
    }
  }

  /** Downwards too, unless a cursor is too low from the start. */
  lemma {:induction false} BytesDownEnd(mem: seq<Byte>, dst: int, src: int, n: nat)
    requires HighBits(dst) && HighBits(src) && n < SIZE_LIMIT
    ensures var r := BytesDown(mem, dst, src, n);
            r.Left? ==> r.n == SIZE_MAX && |r.mem| == |mem| && r.dst <= dst
    decreases dst
  {
    if n == 0 || !Mapped(mem, dst, 1) || !Mapped(mem, src, 1) {
    } else {
      BytesDownEnd(mem[dst := mem[src]], dst - 1, src - 1, Less(Less(n)));
    }
  }

  /** A word that lies in memory is copied and counts one. */
  lemma OneWord(mem: seq<Byte>, dst: nat, src: nat, step: int)
    requires Mapped(mem, dst, 8) && Mapped(mem, src, 8)
    ensures var r := Words(mem, dst, src, 1, step);
            r.Left? && Moved(r.mem, mem, dst, src, 8) && r.dst == dst + step && r.src == src + step && r.n == 0
  {
    PutWordMoves(mem, dst, src);
    assert Words(PutWord(mem, dst, src), dst + step, src + step, 0, step).Left?;
  }

  /** So many words leave the memory upwards. */
  lemma {:induction false} WordsRunOver(mem: seq<Byte>, dst: int, src: int, n: nat)
    requires 0 < n && |mem| < dst + WORD * n
    ensures Words(mem, dst, src, n, WORD) == Fault
    decreases n
  {
    if n == 1 {
    } else if Mapped(mem, dst, WORD) && Mapped(mem, src, WORD) {
      WordsRunOver(PutWord(mem, dst, src), dst + WORD, src + WORD, n - 1);
    }
  }

  /** Downwards they reach page 0. */
  lemma {:induction false} WordsRunUnder(mem: seq<Byte>, dst: int, src: int, n: nat)
    requires 0 < n && dst - WORD * (n - 1) < PAGE_SIZE
    ensures Words(mem, dst, src, n, -8) == Fault
    decreases n
  {
    if n == 1 {
    } else if Mapped(mem, dst, WORD) && Mapped(mem, src, WORD) {
      WordsRunUnder(PutWord(mem, dst, src), dst - WORD, src - WORD, n - 1);
    }
  }

  lemma BackwardsFaults(mem: seq<Byte>, dst: nat, src: nat, n: nat)
    requires 1 < n < SIZE_LIMIT && |mem| < SIZE_LIMIT
    ensures Backwards(mem, dst, src, n) == Fault
  {
    var d, s := (dst + n) % SIZE_LIMIT, (src + n) % SIZE_LIMIT;
    var r := BytesDown(mem, d, s, n);
    if HighBits(d) && HighBits(s) {
      BytesDownEnd(mem, d, s, n);
      if r.Left? {
        WordsRunUnder(r.mem, r.dst, r.src, r.n);
      }
    }
  }

  /** As written kmemory_copy comes back, and then with every memory copied rightly, exactly if
      destination and source are the same. */
  lemma CopiesOnlyOntoItself(mem: seq<Byte>, dst: nat, src: nat, n: nat)
    requires PAGE_SIZE <= dst && PAGE_SIZE <= src && n < SIZE_LIMIT
    requires dst + n <= |mem| < SIZE_LIMIT && src + n <= |mem|
    ensures var r := CopyWritten(mem, dst, src, n);
            && (r.Left? <==> dst == src)
            && (r.Left? ==> Moved(r.mem, mem, dst, src, n))
  {
    if dst != src {
      if dst < src || dst >= src + n {
        BytesEnd(mem, dst, src, n);
        var r := Bytes(mem, dst, src, n);
        if r.Left? {
          WordsRunOver(r.mem, r.dst, r.src, r.n);
        }
      } else {
        BackwardsFaults(mem, dst + n, src + n, n);
      }
    }
  }
}
