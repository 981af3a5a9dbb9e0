/** The bitmap of physical page frames, and pages holding frames (arch/i686/mem/paging.c). */
module Frames {
  import opened Bits
  import opened Alignment

  const PAGE_FLAGS_PRESENT: nat := 1
  const PAGE_FLAGS_USER_MODE: nat := 2
  const PAGE_FLAGS_WRITEABLE: nat := 4

  /** A page table entry. */
  datatype Page = Page(present: bool, rw: bool, user: bool, frame: nat)

  const ZERO_PAGE: Page := Page(false, false, false, 0)

  function BitIndex(frame: nat): nat {
    frame / 32
  }

  function BitOffset(frame: nat): (j: nat)
    ensures j < 32
  {
    frame % 32
  }

  /** The entry that frame_alloc leaves behind for frame f. */
  function Filled(flags: nat, f: nat): Page {
    Page(TestFlag(flags, PAGE_FLAGS_PRESENT), TestFlag(flags, PAGE_FLAGS_WRITEABLE),
         TestFlag(flags, PAGE_FLAGS_USER_MODE), f)
  }

  /** The bits of an entry are those of the flags: 1 for present, 2 for user, 4 for writeable. */
  predicate HasFlags(page: Page, flags: nat) {
    && (page.present <==> flags % 2 == 1)
    && (page.user <==> flags / 2 % 2 == 1)
    && (page.rw <==> flags / 4 % 2 == 1)
  }

  lemma FilledBits(flags: nat, f: nat)
    ensures HasFlags(Filled(flags, f), flags)
  {
    hide And;
    AndOne(flags);
    AndOne(flags / 2);
    AndOne(flags / 4);
    assert flags / 2 / 2 == flags / 4;
    AndStep(flags, 1, 0);
    AndStep(flags, 2, 0);
    AndStep(flags / 2, 1, 0);
  }

  class FrameMap {
    const frames: array<nat>
    const framesCount: nat

    ghost predicate Valid()
      reads this, frames
    {
      && frames.Length == BitIndex(framesCount)
      && forall i :: 0 <= i < frames.Length ==> frames[i] < Pow2(32)
    }

    /** The number of frames that the bitmap's whole words cover. */
    function Limit(): nat
      reads this
    {
      32 * frames.Length
    }

    ghost predicate Marked(f: nat)
      reads this, frames
    {
      f < Limit() && Bit(frames[BitIndex(f)], BitOffset(f))
    }

    ghost predicate HasFree()
      reads this, frames
    {
      exists f: nat :: f < Limit() && !Marked(f)
    }

    constructor (framesCount: nat)
      ensures Valid() && this.framesCount == framesCount && fresh(frames)
      ensures forall f :: !Marked(f)
    {
      this.framesCount := framesCount;
      frames := new nat[BitIndex(framesCount)](_ => 0);
      new;
      forall f: nat
        ensures !Marked(f)
      {
        BitOfZero(BitOffset(f));
      }
    }

    method FrameSet(addr: nat)
      requires Valid() && addr / PAGE_SIZE < Limit()
      modifies frames
      ensures Valid()
      ensures forall f :: Marked(f) <==> f == addr / PAGE_SIZE || old(Marked(f))
    {
      var frame := addr / PAGE_SIZE;
      var i := BitIndex(frame);
      ghost var word := frames[i];
      frames[i] := SetBit(frames[i], BitOffset(frame));
      forall k: nat
        ensures Bit(frames[i], k) <==> k == BitOffset(frame) || Bit(word, k)
        ensures frames[i] < Pow2(32)
      {
        SetBitMeans(word, BitOffset(frame), k);
      }
      assert frames[i] < Pow2(32) by { SetBitMeans(word, BitOffset(frame), 0); }
      forall f: nat
        ensures Marked(f) <==> f == frame || old(Marked(f))
      {
        SameWord(f, frame);
      }
    }

    method FrameClear(addr: nat)
      requires Valid() && addr / PAGE_SIZE < Limit()
      modifies frames
      ensures Valid()
      ensures forall f :: Marked(f) <==> f != addr / PAGE_SIZE && old(Marked(f))
    {
      var frame := addr / PAGE_SIZE;
      var i := BitIndex(frame);
      ghost var word := frames[i];
      frames[i] := ClearBit(frames[i], BitOffset(frame));
      forall k: nat | k < 32
        ensures Bit(frames[i], k) <==> k != BitOffset(frame) && Bit(word, k)
      {
        ClearBitMeans(word, BitOffset(frame), k);
      }
      assert frames[i] < Pow2(32) by { ClearBitMeans(word, BitOffset(frame), 0); }
      forall f: nat
        ensures Marked(f) <==> f != frame && old(Marked(f))
      {
        SameWord(f, frame);
      }
    }

    /** The least unmarked frame; if every frame of the bitmap is marked the answer is 0. */
    method GetFirstFree() returns (frame: nat)
      requires Valid()
      ensures forall f :: 0 <= f < frame ==> Marked(f)
      ensures if HasFree() then frame < Limit() && !Marked(frame) else frame == 0
    {
      var i := 0;
      while i < BitIndex(framesCount)
        invariant 0 <= i <= frames.Length
        invariant forall f :: 0 <= f < 32 * i ==> Marked(f)
      {
        if frames[i] != 0xFFFF_FFFF {
          var j := 0;
          while j < 32
            invariant 0 <= j <= 32
            invariant forall k :: 0 <= k < j ==> Bit(frames[i], k)
          {
            TestBitIsBit(frames[i], j);
            if !TestBit(frames[i], j) {
              frame := i * 4 * 8 + j;
              FrameInWord(i, j);
              WordMarked(i, j);
              assert !Marked(frame);
              return;
            }
            j := j + 1;
          }
          FullWord(frames[i]);
        }
        FullWord(frames[i]);
        WordMarked(i, 32);
        i := i + 1;
      }
      frame := 0;
    }

    /** The low bits of one word being set, the frames they stand for are marked. */
    lemma WordMarked(i: nat, j: nat)
      requires i < frames.Length && j <= 32 && forall k :: 0 <= k < j ==> Bit(frames[i], k)
      requires forall f :: 0 <= f < 32 * i ==> Marked(f)
      ensures forall f :: 0 <= f < 32 * i + j ==> Marked(f)
    {
      forall f: nat | 32 * i <= f < 32 * i + j
        ensures Marked(f)
      {
        FrameInWord(i, f - 32 * i);
      }
    }
  }

  lemma FullWord(word: nat)
    requires word < Pow2(32)
    ensures word == 0xFFFF_FFFF <==> forall k :: 0 <= k < 32 ==> Bit(word, k)
  {
    SmallPowers();
    AllOnes(word, 32);
  }

  lemma FrameInWord(i: nat, j: nat)
    requires j < 32
    ensures BitIndex(32 * i + j) == i && BitOffset(32 * i + j) == j
  {
  }

  lemma SameWord(f: nat, g: nat)
    ensures BitIndex(f) == BitIndex(g) && BitOffset(f) == BitOffset(g) <==> f == g
  {
  }

  /** frame_alloc on entry `index` of a page table; an entry that has a frame keeps it. */
  method FrameAlloc(bitmap: FrameMap, pages: array<Page>, index: nat, flags: nat) returns (ghost f: nat)
    requires bitmap.Valid() && index < pages.Length
    requires bitmap.Limit() > 0
    modifies bitmap.frames, pages
    ensures bitmap.Valid()
    ensures forall k :: 0 <= k < pages.Length && k != index ==> pages[k] == old(pages[k])
    ensures old(pages[index].frame) != 0 ==>
              pages[index] == old(pages[index]) && forall g :: bitmap.Marked(g) <==> old(bitmap.Marked(g))
    ensures old(pages[index].frame) == 0 ==>
              && pages[index] == Filled(flags, f) && pages[index].frame == f && HasFlags(pages[index], flags)
              && (forall g :: bitmap.Marked(g) <==> g == f || old(bitmap.Marked(g)))
              && (forall g :: 0 <= g < f ==> old(bitmap.Marked(g)))
              && if old(bitmap.HasFree()) then f < bitmap.Limit() && !old(bitmap.Marked(f)) else f == 0
  {
    hide HasFlags;
    if pages[index].frame != 0 {
      f := pages[index].frame;
      return;
    }
    var i := bitmap.GetFirstFree();
    assert i * PAGE_SIZE / PAGE_SIZE == i;
    bitmap.FrameSet(i * PAGE_SIZE);
    FilledBits(flags, i);
    pages[index] := Filled(flags, i);
    f := i;
  }

  /** frame_free: the frame goes back to the bitmap and the entry forgets it. */
  method FrameFree(bitmap: FrameMap, pages: array<Page>, index: nat)
    requires bitmap.Valid() && index < pages.Length && pages[index].frame < bitmap.Limit()
    modifies bitmap.frames, pages
    ensures bitmap.Valid()
    ensures pages[..] == old(pages[..])[index := old(pages[index]).(frame := 0)]
    ensures forall f :: bitmap.Marked(f) <==>
              old(bitmap.Marked(f)) && (f != old(pages[index].frame) || f == 0)
  {
    var frame := pages[index].frame;
    if frame == 0 {
      return;
    }
    assert frame * PAGE_SIZE / PAGE_SIZE == frame;
    bitmap.FrameClear(frame * PAGE_SIZE);
    pages[index] := pages[index].(frame := 0);
  }

  // ---------- Runs of frame_alloc and frame_free ----------

  /** The marked frames and the frame of every page (0 for none). */
  datatype Holding = Holding(marked: set<nat>, pages: map<nat, nat>)

  /** Frame 0 and the frames held by pages are marked, and nothing else; no two pages share one. */
  ghost predicate Consistent(s: Holding) {
    && 0 in s.marked
    && (forall f :: f in s.marked && f != 0 ==> exists p :: p in s.pages && s.pages[p] == f)
    && (forall p :: p in s.pages ==> s.pages[p] in s.marked)
    && (forall p, q :: p in s.pages && q in s.pages && p != q && s.pages[p] != 0 ==> s.pages[p] != s.pages[q])
  }

  function LeastFree(marked: set<nat>, limit: nat, f: nat): (r: nat)
    requires f <= limit
    ensures f <= r <= limit && (r < limit ==> r !in marked)
    ensures forall g :: f <= g < r ==> g in marked
    decreases limit - f
  {
    if f == limit || f !in marked then f else LeastFree(marked, limit, f + 1)
  }

  datatype Request = Take(page: nat) | Give(page: nat)

  /** The frame that the search answers: the least free one, or frame 0 when none is free. */
  function Found(marked: set<nat>, limit: nat): nat {
    var f := LeastFree(marked, limit, 0);
    if f < limit then f else 0
  }

  /** What a request does when the bitmap covers the frames below `limit`. */
  function Serve(s: Holding, r: Request, limit: nat): Holding {
    if r.page !in s.pages then s
    else match r
      case Take(p) =>
        var f := Found(s.marked, limit);
        if s.pages[p] != 0 then s
        else Holding(s.marked + {f}, s.pages[p := f])
      case Give(p) =>
        if s.pages[p] == 0 then s
        else Holding(s.marked - {s.pages[p]}, s.pages[p := 0])
  }

  function ServeAll(s: Holding, rs: seq<Request>, limit: nat): Holding
    decreases |rs|
  {
    if rs == [] then s else ServeAll(Serve(s, rs[0], limit), rs[1..], limit)
  }

  lemma ServeKeepsConsistent(s: Holding, r: Request, limit: nat)
    requires Consistent(s)
    ensures Consistent(Serve(s, r, limit))
  {
    var t := Serve(s, r, limit);
    forall f | f in t.marked && f != 0
      ensures exists p :: p in t.pages && t.pages[p] == f
    {
      if f in s.marked {
        var p :| p in s.pages && s.pages[p] == f;
        assert p in t.pages && t.pages[p] == f;
      } else {
        assert r.page in t.pages && t.pages[r.page] == f;
      }
    }
  }

  /** Over any run, also one that meets a full bitmap, no two pages share a frame, and the marked
      frames are frame 0 and exactly the frames that pages hold. */
  lemma {:induction false} RunsStayConsistent(s: Holding, rs: seq<Request>, limit: nat)
    requires Consistent(s)
    ensures Consistent(ServeAll(s, rs, limit))
    decreases |rs|
  {
    if rs == [] {
    } else {
      ServeKeepsConsistent(s, rs[0], limit);
      RunsStayConsistent(Serve(s, rs[0], limit), rs[1..], limit);
    }
  }

  /** The bitmap and one page table seen as a holding: pages are known by their index. */
  ghost function HoldingOf(bitmap: FrameMap, pages: array<Page>): Holding
    reads bitmap, bitmap.frames, pages
  {
    Holding(set f: nat | f < bitmap.Limit() && bitmap.Marked(f),
            map p: nat | p < pages.Length :: pages[p].frame)
  }

  lemma {:induction false} LeastFreeIs(marked: set<nat>, limit: nat, f: nat, r: nat)
    requires f <= r <= limit && (r < limit ==> r !in marked) && forall g :: f <= g < r ==> g in marked
    ensures LeastFree(marked, limit, f) == r
    decreases r - f
  {
    if f == r {
    } else {
      LeastFreeIs(marked, limit, f + 1, r);
    }
  }

  /** What the search on the bitmap answers is what the search on the set of marked frames does. */
  lemma FoundIs(marked: set<nat>, limit: nat, f: nat)
    requires forall g: nat :: g < f ==> g in marked
    requires (f < limit && f !in marked) || (f == 0 && forall g: nat :: g < limit ==> g in marked)
    ensures Found(marked, limit) == f
  {
    if f < limit && f !in marked {
      LeastFreeIs(marked, limit, 0, f);
    } else {
      LeastFreeIs(marked, limit, 0, limit);
    }
  }

  method ServeTake(bitmap: FrameMap, pages: array<Page>, p: nat, flags: nat)
    requires bitmap.Valid() && p < pages.Length && bitmap.Limit() > 0
    modifies bitmap.frames, pages
    ensures bitmap.Valid()
    ensures HoldingOf(bitmap, pages) == Serve(old(HoldingOf(bitmap, pages)), Take(p), bitmap.Limit())
  {
    hide Found, HasFlags;
    ghost var s := HoldingOf(bitmap, pages);
    ghost var f := FrameAlloc(bitmap, pages, p, flags);
    ghost var t := HoldingOf(bitmap, pages);
    if s.pages[p] == 0 {
      FoundIs(s.marked, bitmap.Limit(), f);
      assert t.marked == s.marked + {f};
      assert t.pages == s.pages[p := f];
    } else {
      assert t.marked == s.marked && t.pages == s.pages;
    }
  }

  method ServeGive(bitmap: FrameMap, pages: array<Page>, p: nat)
    requires bitmap.Valid() && p < pages.Length && pages[p].frame < bitmap.Limit()
    modifies bitmap.frames, pages
    ensures bitmap.Valid()
    ensures HoldingOf(bitmap, pages) == Serve(old(HoldingOf(bitmap, pages)), Give(p), bitmap.Limit())
  {
    hide LeastFree;
    ghost var s := HoldingOf(bitmap, pages);
    FrameFree(bitmap, pages, p);
    ghost var t := HoldingOf(bitmap, pages);
    assert t.marked == if s.pages[p] == 0 then s.marked else s.marked - {s.pages[p]};
    assert t.pages == s.pages[p := 0];
  }

  lemma FrameInBitmap(s: Holding, p: nat)
    requires Consistent(s) && p in s.pages
    ensures s.pages[p] in s.marked
  {
  }

  /** Any run of frame_alloc and frame_free on a page table does what the run on values does. */
  method ServeRun(bitmap: FrameMap, pages: array<Page>, rs: seq<Request>, flags: nat)
    requires bitmap.Valid() && forall i :: 0 <= i < |rs| ==> rs[i].page < pages.Length
    requires Consistent(HoldingOf(bitmap, pages))
    modifies bitmap.frames, pages
    ensures bitmap.Valid()
    ensures HoldingOf(bitmap, pages) == ServeAll(old(HoldingOf(bitmap, pages)), rs, bitmap.Limit())
    ensures Consistent(HoldingOf(bitmap, pages))
  {
    assert 0 in HoldingOf(bitmap, pages).marked;
    hide Consistent, Serve;
    ghost var s, limit := HoldingOf(bitmap, pages), bitmap.Limit();
    for k := 0 to |rs|
      invariant bitmap.Valid() && Consistent(HoldingOf(bitmap, pages))
      invariant ServeAll(s, rs, limit) == ServeAll(HoldingOf(bitmap, pages), rs[k..], limit)
    {
      assert rs[k..][0] == rs[k] && rs[k..][1..] == rs[k + 1..];
      ServeKeepsConsistent(HoldingOf(bitmap, pages), rs[k], limit);
      match rs[k]
      case Take(p) => ServeTake(bitmap, pages, p, flags);
      case Give(p) =>
        FrameInBitmap(HoldingOf(bitmap, pages), p);
        ServeGive(bitmap, pages, p);
    }
  }

  /** A take gives its page the least free frame exactly if there is one. When no frame is free the
      search answers 0: the page ends with frame 0, which does not count as having one, and the
      marked set stays as it was. */
  lemma TakeNeedsFreeFrame(s: Holding, p: nat, limit: nat)
    requires Consistent(s) && p in s.pages && s.pages[p] == 0
    ensures var t := Serve(s, Take(p), limit);
            && (t.pages[p] != 0 <==> exists f: nat :: f < limit && f !in s.marked)
            && (t.pages[p] != 0 ==>
                  && t.pages[p] < limit && t.pages[p] !in s.marked && t.marked == s.marked + {t.pages[p]}
                  && forall f: nat :: f < limit && f !in s.marked ==> t.pages[p] <= f)
            && (t.pages[p] == 0 ==> t == s)
  {
    var t, f := Serve(s, Take(p), limit), LeastFree(s.marked, limit, 0);
    if f < limit {
      assert f !in s.marked;
    } else {
      assert t.marked == s.marked && t.pages == s.pages;
    }
  }

  /** As written, frame_free passes the frame number where frame_clear expects an address, and so
      clears bit `frame / PAGE_SIZE`. */
  function ServeAsWritten(s: Holding, p: nat): Holding
    requires p in s.pages
  {
    if s.pages[p] == 0 then s
    else Holding(s.marked - {s.pages[p] / PAGE_SIZE}, s.pages[p := 0])
  }

  /** The written version keeps the bitmap consistent exactly when the page had no frame to give
      back: the frame of a page that had one stays marked although nobody holds it. */
  lemma FreeAsWrittenLeaks(s: Holding, p: nat)
    requires Consistent(s) && p in s.pages
    ensures Consistent(ServeAsWritten(s, p)) <==> s.pages[p] == 0
    ensures s.pages[p] != 0 ==>
              s.pages[p] in ServeAsWritten(s, p).marked && s.pages[p] !in ServeAsWritten(s, p).pages.Values
  {
    var f, t := s.pages[p], ServeAsWritten(s, p);
    if f != 0 {
      assert f / PAGE_SIZE < f;
      assert f in t.marked && forall q :: q in t.pages ==> t.pages[q] != f;
    }
  }
}
