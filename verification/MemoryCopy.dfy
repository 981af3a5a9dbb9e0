/** kmemory_copy and its word-wise loops (libk/kmemory.c, libk/kmemory_copy.h), with the counters and
    cursors that include/libk/kmemory.h asks for. Memory is an array of bytes, and a pointer is an
    index. */
module MemoryCopy {
  type Byte = x: nat | x < 256

  const WORD: nat := 8

  // ---------- What copying should do ----------

  /** Memory after n bytes at `src` have been put at `dst`, wherever the two regions lie. */
  ghost predicate Moved(after: seq<Byte>, before: seq<Byte>, dst: nat, src: nat, n: nat)
    requires dst + n <= |before| && src + n <= |before|
  {
    && |after| == |before|
    && forall i {:trigger after[i]} :: 0 <= i < |before| ==> after[i] == if dst <= i < dst + n then before[i - dst + src] else before[i]
  }

  // ---------- One byte at a time ----------

  function Forward(mem: seq<Byte>, dst: nat, src: nat, n: nat): (r: seq<Byte>)
    requires dst + n <= |mem| && src + n <= |mem|
    ensures |r| == |mem|
  {
    if n == 0 then mem
    else var m := Forward(mem, dst, src, n - 1); m[dst + n - 1 := m[src + n - 1]]
  }

  /** From the last byte down to the one at index k. */
  function Backward(mem: seq<Byte>, dst: nat, src: nat, k: nat, n: nat): (r: seq<Byte>)
    requires k <= n && dst + n <= |mem| && src + n <= |mem|
    ensures |r| == |mem|
    decreases n - k
  {
    if k == n then mem
    else var m := Backward(mem, dst, src, k + 1, n); m[dst + k := m[src + k]]
  }

  /** Eight bytes that are read before any of them is written. */
  function PutWord(mem: seq<Byte>, dst: nat, src: nat): (r: seq<Byte>)
    requires dst + WORD <= |mem| && src + WORD <= |mem|
    ensures |r| == |mem|
  {
    mem[..dst] + mem[src..src + WORD] + mem[dst + WORD..]
  }

  lemma PutWordMoves(mem: seq<Byte>, dst: nat, src: nat)
    requires dst + WORD <= |mem| && src + WORD <= |mem|
    ensures Moved(PutWord(mem, dst, src), mem, dst, src, WORD)
  {
  }

  /** Copying forwards is moving unless the destination starts inside the source. */
  lemma {:induction false} ForwardMoves(mem: seq<Byte>, dst: nat, src: nat, n: nat)
    requires dst + n <= |mem| && src + n <= |mem| && !(src < dst < src + n)
    ensures Moved(Forward(mem, dst, src, n), mem, dst, src, n)
  {
    if n == 0 {
    } else {
      ForwardMoves(mem, dst, src, n - 1);
      var m := Forward(mem, dst, src, n - 1);
      assert m[src + n - 1] == mem[src + n - 1];
      assert forall i :: 0 <= i < |mem| && i != dst + n - 1 ==> Forward(mem, dst, src, n)[i] == m[i];
    }
  }

  /** When it does start there, some memory comes out wrong. */
  lemma ForwardSpoils(size: nat, dst: nat, src: nat, n: nat)
    requires dst + n <= size && src + n <= size && src < dst < src + n
    ensures var mem := Marked(size, src); !Moved(Forward(mem, dst, src, n), mem, dst, src, n)
  {
    var mem, d := Marked(size, src), dst - src;
    Repeats(mem, dst, src, d + 1);
    Keeps(mem, dst, src, d + 1, n);
    assert mem[dst] == 0;
  }

  /** Memory that is zero but for one byte. */
  function Marked(size: nat, at: nat): (mem: seq<Byte>)
    ensures |mem| == size && forall i :: 0 <= i < size ==> mem[i] == if i == at then 1 else 0
  {
    seq(size, i requires 0 <= i < size => if i == at then 1 else 0)
  }

  /** The first d + 1 bytes copied forwards over a distance d end with the first source byte again. */
  lemma {:induction false} Repeats(mem: seq<Byte>, dst: nat, src: nat, n: nat)
    requires dst + n <= |mem| && src < dst && n == dst - src + 1
    ensures Forward(mem, dst, src, n)[dst + n - 1] == mem[src]
  {
    var d := dst - src;
    ForwardMoves(mem, dst, src, d);
    assert Forward(mem, dst, src, d)[src + d] == mem[src];
  }

  lemma {:induction false} Keeps(mem: seq<Byte>, dst: nat, src: nat, k: nat, n: nat)
    requires dst + n <= |mem| && src + n <= |mem| && 0 < k <= n
    ensures Forward(mem, dst, src, n)[dst + k - 1] == Forward(mem, dst, src, k)[dst + k - 1]
    decreases n - k
  {
    if k == n {
    } else {
      Keeps(mem, dst, src, k, n - 1);
    }
  }

  /** Forward copying is safe for all contents exactly if the destination does not start inside the
      source, which is what kmemory_copy tests. */
  lemma ForwardIsSafe(size: nat, dst: nat, src: nat, n: nat)
    requires dst + n <= size && src + n <= size
    ensures !(src < dst < src + n) <==>
              forall mem: seq<Byte> | |mem| == size :: Moved(Forward(mem, dst, src, n), mem, dst, src, n)
  {
    if src < dst < src + n {
      ForwardSpoils(size, dst, src, n);
    } else {
      forall mem: seq<Byte> | |mem| == size ensures Moved(Forward(mem, dst, src, n), mem, dst, src, n) {
        ForwardMoves(mem, dst, src, n);
      }
    }
  }

  /** Copying backwards is moving unless the source starts inside the destination. */
  lemma {:induction false} BackwardMoves(mem: seq<Byte>, dst: nat, src: nat, k: nat, n: nat)
    requires k <= n && dst + n <= |mem| && src + n <= |mem| && !(dst < src < dst + n)
    ensures Moved(Backward(mem, dst, src, k, n), mem, dst + k, src + k, n - k)
    decreases n - k
  {
    if k == n {
    } else {
      BackwardMoves(mem, dst, src, k + 1, n);
      var m := Backward(mem, dst, src, k + 1, n);
      assert m[src + k] == mem[src + k];
      assert forall i :: 0 <= i < |mem| && i != dst + k ==> Backward(mem, dst, src, k, n)[i] == m[i];
    }
  }

  // ---------- Words refine bytes ----------

  lemma MovedIsUnique(a: seq<Byte>, b: seq<Byte>, before: seq<Byte>, dst: nat, src: nat, n: nat)
    requires dst + n <= |before| && src + n <= |before| && Moved(a, before, dst, src, n) && Moved(b, before, dst, src, n)
    ensures a == b
  {
    assert forall i :: 0 <= i < |a| ==> a[i] == b[i];
  }

  lemma {:induction false} ForwardSplit(mem: seq<Byte>, dst: nat, src: nat, k: nat, n: nat)
    requires dst + k + n <= |mem| && src + k + n <= |mem|
    ensures Forward(mem, dst, src, k + n) == Forward(Forward(mem, dst, src, k), dst + k, src + k, n)
    decreases n
  {
    if n == 0 {
    } else {
      ForwardSplit(mem, dst, src, k, n - 1);
    }
  }

  /** A word is eight bytes copied forwards, whichever way the regions overlap otherwise, as long as
      the destination does not start inside the word read. */
  lemma ForwardWord(mem: seq<Byte>, dst: nat, src: nat, k: nat)
    requires dst + k + WORD <= |mem| && src + k + WORD <= |mem| && !(src < dst < src + WORD)
    ensures PutWord(Forward(mem, dst, src, k), dst + k, src + k) == Forward(mem, dst, src, k + WORD)
  {
    hide Forward, Moved;
    ForwardSplit(mem, dst, src, k, WORD);
    var m := Forward(mem, dst, src, k);
    ForwardMoves(m, dst + k, src + k, WORD);
    PutWordMoves(m, dst + k, src + k);
    MovedIsUnique(PutWord(m, dst + k, src + k), Forward(m, dst + k, src + k, WORD), m, dst + k, src + k, WORD);
  }

  lemma {:induction false} BackwardSplit(mem: seq<Byte>, dst: nat, src: nat, i: nat, k: nat, n: nat)
    requires i <= k <= n && dst + n <= |mem| && src + n <= |mem|
    ensures Backward(mem, dst, src, i, n) == Backward(Backward(mem, dst, src, k, n), dst, src, i, k)
    decreases k - i
  {
    if i == k {
    } else {
      BackwardSplit(mem, dst, src, i + 1, k, n);
    }
  }

  lemma {:induction false} BackwardShift(mem: seq<Byte>, dst: nat, src: nat, i: nat, k: nat, n: nat)
    requires i + k <= n && dst + n <= |mem| && src + n <= |mem|
    ensures Backward(mem, dst, src, i + k, n) == Backward(mem, dst + i, src + i, k, n - i)
    decreases n - k
  {
    if i + k == n {
    } else {
      BackwardShift(mem, dst, src, i, k + 1, n);
    }
  }

  lemma BackwardWord(mem: seq<Byte>, dst: nat, src: nat, k: nat, n: nat)
    requires k + WORD <= n && dst + n <= |mem| && src + n <= |mem| && !(dst < src < dst + WORD)
    ensures PutWord(Backward(mem, dst, src, k + WORD, n), dst + k, src + k) == Backward(mem, dst, src, k, n)
  {
    hide Backward, Moved;
    var m := Backward(mem, dst, src, k + WORD, n);
    BackwardSplit(mem, dst, src, k, k + WORD, n);
    BackwardShift(m, dst, src, k, 0, k + WORD);
    BackwardMoves(m, dst + k, src + k, 0, WORD);
    PutWordMoves(m, dst + k, src + k);
    MovedIsUnique(PutWord(m, dst + k, src + k), Backward(m, dst + k, src + k, 0, WORD), m, dst + k, src + k, WORD);
  }

  // ---------- The loops ----------

  /** A 64-bit load and store. */
  method CopyWord(mem: array<Byte>, dst: nat, src: nat)
    requires dst + WORD <= mem.Length && src + WORD <= mem.Length
    modifies mem
    ensures mem[..] == PutWord(old(mem[..]), dst, src)
  {
    ghost var before := mem[..];
    var word := mem[src..src + WORD];
    forall i | 0 <= i < WORD {
      mem[dst + i] := word[i];
    }
    assert forall i :: 0 <= i < mem.Length ==> mem[..][i] == PutWord(before, dst, src)[i];
  }

  /** The next word of a forward copy. */
  method CopyNext(mem: array<Byte>, ghost before: seq<Byte>, dst: nat, src: nat, k: nat, ghost n: nat)
    requires k + WORD <= n && dst + n <= mem.Length == |before| && src + n <= mem.Length && !(src < dst < src + n)
    requires mem[..] == Forward(before, dst, src, k)
    modifies mem
    ensures mem[..] == Forward(before, dst, src, k + WORD)
  {
    hide Forward, PutWord;
    CopyWord(mem, dst + k, src + k);
    ForwardWord(before, dst, src, k);
  }

  /** The next word of a backward copy. */
  method CopyPrevious(mem: array<Byte>, ghost before: seq<Byte>, dst: nat, src: nat, k: nat, ghost n: nat)
    requires k + WORD <= n && dst + n <= mem.Length == |before| && src + n <= mem.Length && !(dst < src < dst + n)
    requires mem[..] == Backward(before, dst, src, k + WORD, n)
    modifies mem
    ensures mem[..] == Backward(before, dst, src, k, n)
  {
    hide Backward, PutWord;
    CopyWord(mem, dst + k, src + k);
    BackwardWord(before, dst, src, k, n);
  }

  predicate Aligned(p: nat) {
    p % WORD == 0
  }

  /** internal_copy_forwards: bytes until an address is aligned, four words at a time, words, and
      the bytes that are left. */
  method CopyForwards(mem: array<Byte>, dst: nat, src: nat, n: nat)
    requires dst + n <= mem.Length && src + n <= mem.Length && !(src < dst < src + n)
    modifies mem
    ensures mem[..] == Forward(old(mem[..]), dst, src, n)
  {
    hide Forward, Aligned;
    ghost var before := mem[..];
    var k: nat := 0;
    ForwardStep(before, dst, src, 0, n);
    while k < n && !Aligned(dst + k) && !Aligned(src + k)
      invariant k <= n && mem[..] == Forward(before, dst, src, k)
    {
      ForwardStep(before, dst, src, k, n);
      mem[dst + k] := mem[src + k];
      k := k + 1;
    }
    while n - k >= 4 * WORD
      invariant k <= n && mem[..] == Forward(before, dst, src, k)
    {
      CopyNext(mem, before, dst, src, k, n);
      CopyNext(mem, before, dst, src, k + WORD, n);
      CopyNext(mem, before, dst, src, k + 2 * WORD, n);
      CopyNext(mem, before, dst, src, k + 3 * WORD, n);
      k := k + 4 * WORD;
    }
    while n - k >= WORD
      invariant k <= n && mem[..] == Forward(before, dst, src, k)
    {
      CopyNext(mem, before, dst, src, k, n);
      k := k + WORD;
    }
    while k < n
      invariant k <= n && mem[..] == Forward(before, dst, src, k)
    {
      ForwardStep(before, dst, src, k, n);
      mem[dst + k] := mem[src + k];
      k := k + 1;
    }
  }

  lemma ForwardStep(mem: seq<Byte>, dst: nat, src: nat, k: nat, n: nat)
    requires k <= n && dst + n <= |mem| && src + n <= |mem|
    ensures Forward(mem, dst, src, 0) == mem
    ensures k < n ==> var m := Forward(mem, dst, src, k);
                      Forward(mem, dst, src, k + 1) == m[dst + k := m[src + k]]
  {
  }

  /** internal_copy_backwards: the same from the end down. */
  method CopyBackwards(mem: array<Byte>, dst: nat, src: nat, n: nat)
    requires dst + n <= mem.Length && src + n <= mem.Length && !(dst < src < dst + n)
    modifies mem
    ensures mem[..] == Backward(old(mem[..]), dst, src, 0, n)
  {
    hide Backward, Aligned;
    ghost var before := mem[..];
    var k: nat := n;
    BackwardStep(before, dst, src, n, n);
    while k > 0 && !Aligned(dst + k) && !Aligned(src + k)
      invariant k <= n && mem[..] == Backward(before, dst, src, k, n)
    {
      BackwardStep(before, dst, src, k, n);
      k := k - 1;
      mem[dst + k] := mem[src + k];
    }
    while k >= 4 * WORD
      invariant k <= n && mem[..] == Backward(before, dst, src, k, n)
    {
      CopyPrevious(mem, before, dst, src, k - WORD, n);
      CopyPrevious(mem, before, dst, src, k - 2 * WORD, n);
      CopyPrevious(mem, before, dst, src, k - 3 * WORD, n);
      CopyPrevious(mem, before, dst, src, k - 4 * WORD, n);
      k := k - 4 * WORD;
    }
    while k >= WORD
      invariant k <= n && mem[..] == Backward(before, dst, src, k, n)
    {
      CopyPrevious(mem, before, dst, src, k - WORD, n);
      k := k - WORD;
    }
    while k > 0
      invariant k <= n && mem[..] == Backward(before, dst, src, k, n)
    {
      BackwardStep(before, dst, src, k, n);
      k := k - 1;
      mem[dst + k] := mem[src + k];
    }
  }

  lemma BackwardStep(mem: seq<Byte>, dst: nat, src: nat, k: nat, n: nat)
    requires k <= n && dst + n <= |mem| && src + n <= |mem|
    ensures Backward(mem, dst, src, n, n) == mem
    ensures k > 0 ==> var m := Backward(mem, dst, src, k, n);
                      Backward(mem, dst, src, k - 1, n) == m[dst + k - 1 := m[src + k - 1]]
  {
  }

  /** kmemory_copy: whatever the overlap, the destination ends with the bytes the source had, and
      nothing else changes. */
  method Copy(mem: array<Byte>, dst: nat, src: nat, n: nat)
    requires dst + n <= mem.Length && src + n <= mem.Length
    modifies mem
    ensures Moved(mem[..], old(mem[..]), dst, src, n)
  {
    ghost var before := mem[..];
    if dst == src {
      return;
    }
    if dst < src || dst >= src + n {
      CopyForwards(mem, dst, src, n);
      ForwardMoves(before, dst, src, n);
      return;
    }
    CopyBackwards(mem, dst, src, n);
    BackwardMoves(before, dst, src, 0, n);
  }
}
