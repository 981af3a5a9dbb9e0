/** The bump allocator used before the heap exists (src/mem/static.c). */
module StaticAlloc {
  import opened Bits
  import opened Alignment
  import opened BootModules

  const ALLOC_SIZE_ALIGN: nat := 0
  const ALLOC_PAGE_ALIGN: nat := 1

  datatype Request = Request(size: nat, flags: nat)

  /** The alignment that a request is entitled to. */
  function Unit(r: Request): nat {
    if TestFlag(r.flags, ALLOC_PAGE_ALIGN) then PAGE_SIZE else AllocUnit(r.size)
  }

  /** Where the block of a request goes when the next free address is h: on the next page if flag 1
      asks for a page, or else where its size puts it. */
  predicate PlacedFor(addr: nat, h: nat, r: Request) {
    if r.flags % 2 == 1 then NextMultiple(addr, h, 4096) else SizeAligned(addr, h, r.size)
  }

  /** What the kernel may rely on: the address suits the flag or the size of the request. */
  predicate AlignedFor(addr: nat, r: Request) {
    && (r.flags % 2 == 1 ==> addr % 4096 == 0)
    && (r.flags % 2 == 0 && r.size >= 16 ==> addr % 16 == 0)
    && (r.flags % 2 == 0 && 4 <= r.size < 16 ==> addr % 4 == 0)
    && (r.flags % 2 == 0 && 2 <= r.size < 4 ==> addr % 2 == 0)
  }

  lemma PageFlag(flags: nat)
    ensures TestFlag(flags, ALLOC_PAGE_ALIGN) <==> flags % 2 == 1
  {
    AndOne(flags);
  }

  class StaticAllocator {
    var heapAddr: nat
    const kernelEnd: nat

    ghost predicate Valid()
      reads this
    {
      PAGE_SIZE <= kernelEnd <= heapAddr
    }

    /** static_init: start on a page boundary above the kernel and every boot module. */
    constructor (kernelEnd: nat, modules: Modules)
      requires PAGE_SIZE <= kernelEnd < WORD_LIMIT && modules.end < WORD_LIMIT
      ensures Valid() && this.kernelEnd == kernelEnd
      ensures heapAddr > kernelEnd && heapAddr > modules.end && heapAddr % PAGE_SIZE == 0
      ensures heapAddr <= (if kernelEnd > modules.end then kernelEnd else modules.end) + PAGE_SIZE
    {
      var top := if kernelEnd > modules.end then kernelEnd else modules.end;
      UnitsArePowers();
      MakeAlignedMoves(top, PAGE_SIZE);
      this.kernelEnd := kernelEnd;
      heapAddr := MakeAligned(top, PAGE_SIZE);
    }

    /** static_alloc_base, which returns the address twice: as the result and as `*phys`. */
    method AllocBase(size: nat, flags: nat) returns (addr: nat, phys: nat)
      requires Valid() && size > 0 && heapAddr < WORD_LIMIT
      modifies this`heapAddr
      ensures Valid()
      ensures phys == addr && heapAddr == addr + size
      ensures PlacedFor(addr, old(heapAddr), Request(size, flags))
      ensures old(heapAddr) <= addr <= old(heapAddr) + Unit(Request(size, flags))
      ensures addr == Place(old(heapAddr), Request(size, flags))
    {
      hide PowerOfTwo, MakeAligned, MakeAllocAligned, TestFlag;
      PageFlag(flags);
      UnitsArePowers();
      MakeAlignedMoves(heapAddr, PAGE_SIZE);
      MakeAllocAlignedMoves(heapAddr, size);
      if TestFlag(flags, ALLOC_PAGE_ALIGN) {
        heapAddr := MakeAligned(heapAddr, PAGE_SIZE);
      } else {
        heapAddr := MakeAllocAligned(heapAddr, size);
      }
      addr := heapAddr;
      heapAddr := heapAddr + size;
      phys := addr;
    }
  }

  /** Where a request lands when the next free address is `h`. */
  function Place(h: nat, r: Request): nat {
    if TestFlag(r.flags, ALLOC_PAGE_ALIGN) then MakeAligned(h, PAGE_SIZE) else MakeAllocAligned(h, r.size)
  }

  /** The addresses handed out by a run of requests. */
  function Addresses(h: nat, rs: seq<Request>): (addrs: seq<nat>)
    ensures |addrs| == |rs|
    decreases |rs|
  {
    if rs == [] then []
    else var a := Place(h, rs[0]); [a] + Addresses(a + rs[0].size, rs[1..])
  }

  /** The most address space a run can use. */
  function Budget(rs: seq<Request>): nat {
    if rs == [] then 0 else rs[0].size + Unit(rs[0]) + Budget(rs[1..])
  }

  lemma PlaceMoves(h: nat, r: Request)
    requires PAGE_SIZE <= h < WORD_LIMIT
    ensures PlacedFor(Place(h, r), h, r) && AlignedFor(Place(h, r), r)
    ensures h <= Place(h, r) <= h + Unit(r)
  {
    hide PowerOfTwo, TestFlag, MakeAligned, MakeAllocAligned;
    PageFlag(r.flags);
    UnitsArePowers();
    MakeAlignedMoves(h, PAGE_SIZE);
    MakeAllocAlignedMoves(h, r.size);
  }

  /** Over any run: every block is aligned and above the starting address, ends before the next
      one begins, and the whole run stays within its budget. */
  lemma {:induction false} RunIsDisjoint(h: nat, rs: seq<Request>)
    requires h >= PAGE_SIZE && h + Budget(rs) <= WORD_LIMIT
    requires forall i :: 0 <= i < |rs| ==> rs[i].size > 0
    ensures var a := Addresses(h, rs);
            && (forall i :: 0 <= i < |a| ==> h <= a[i] && AlignedFor(a[i], rs[i]))
            && (forall i :: 0 <= i < |a| ==> a[i] + rs[i].size <= h + Budget(rs))
            && (forall i, j :: 0 <= i < j < |a| ==> a[i] + rs[i].size <= a[j])
    decreases |rs|
  {
    if rs == [] {
    } else {
      var h' := Place(h, rs[0]) + rs[0].size;
      PlaceMoves(h, rs[0]);
      hide Place, Unit, PlacedFor, AlignedFor;
      RunIsDisjoint(h', rs[1..]);
      var a, rest := Addresses(h, rs), Addresses(h', rs[1..]);
      forall i | 1 <= i < |a|
        ensures a[i] == rest[i - 1] && rs[i] == rs[1..][i - 1]
      {
      }
    }
  }

  method AllocateAll(allocator: StaticAllocator, rs: seq<Request>) returns (addrs: seq<nat>)
    requires allocator.Valid() && allocator.heapAddr + Budget(rs) <= WORD_LIMIT
    requires forall i :: 0 <= i < |rs| ==> rs[i].size > 0
    modifies allocator
    ensures addrs == Addresses(old(allocator.heapAddr), rs)
  {
    hide Place, PlacedFor, Unit;
    addrs := [];
    ghost var h := allocator.heapAddr;
    for k := 0 to |rs|
      invariant allocator.Valid()
      invariant Addresses(h, rs) == addrs + Addresses(allocator.heapAddr, rs[k..])
      invariant allocator.heapAddr + Budget(rs[k..]) <= WORD_LIMIT
    {
      assert rs[k..][1..] == rs[k + 1..];
      var addr, _ := allocator.AllocBase(rs[k].size, rs[k].flags);
      addrs := addrs + [addr];
    }
  }

  /** From boot: nothing the allocator ever returns touches the kernel or a boot module. */
  method BootAllocate(mem: map<nat, Tag>, mbTags: nat, ghost tags: seq<Tag>, kernelEnd: nat, rs: seq<Request>)
    returns (addrs: seq<nat>)
    requires LaidOut(mem, mbTags + 8, tags)
    requires PAGE_SIZE <= kernelEnd && kernelEnd + PAGE_SIZE + Budget(rs) <= WORD_LIMIT
    requires forall i :: 0 <= i < |tags| && IsModule(tags[i]) ==> tags[i].moduleEnd + PAGE_SIZE + Budget(rs) <= WORD_LIMIT
    requires forall i :: 0 <= i < |rs| ==> rs[i].size > 0
    ensures |addrs| == |rs|
    ensures forall i :: 0 <= i < |addrs| ==> addrs[i] > kernelEnd && AlignedFor(addrs[i], rs[i])
    ensures forall i, t :: 0 <= i < |addrs| && 0 <= t < |tags| && IsModule(tags[t]) ==> addrs[i] > tags[t].moduleEnd
    ensures forall i, j :: 0 <= i < j < |addrs| ==> addrs[i] + rs[i].size <= addrs[j]
  {
    var modules := new Modules();
    modules.Discover(mem, mbTags, tags);
    assert modules.end + PAGE_SIZE + Budget(rs) <= WORD_LIMIT;
    var allocator := new StaticAllocator(kernelEnd, modules);
    ghost var h := allocator.heapAddr;
    RunIsDisjoint(h, rs);
    addrs := AllocateAll(allocator, rs);
  }
}
