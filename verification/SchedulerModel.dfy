/** The scheduler's state as a value, and what one call does to it (src/sched/process.c). */
module SchedulerModel {
  import opened Wrappers
  import opened Bits

  const PROCESS_PRIORITY_MAX: nat := 15
  const PROCESS_FLAGS_SUPERVISOR: nat := 0
  const PROCESS_FLAGS_USER: nat := 1

  datatype CpuState = CpuState(
    eax: nat, ebx: nat, ecx: nat, edx: nat, esp: nat, ebp: nat, esi: nat, edi: nat,
    cs: nat, ds: nat, es: nat, fs: nat, gs: nat, ss: nat, eip: nat, eflags: nat,
    cr0: nat, cr2: nat, cr3: nat, cr4: nat, interrupt: nat, errorCode: nat)

  const ZERO_STATE: CpuState :=
    CpuState(0, 0, 0, 0, 0, 0, 0, 0, 0, 0, 0, 0, 0, 0, 0, 0, 0, 0, 0, 0, 0, 0)

  datatype Pcb = Pcb(blocked: bool, pageDir: nat, state: CpuState)

  /** `rings[p]` lists the process ids of queue p in the order `next` visits them, starting
      after `last` and ending with `last` itself; process ids index `procs`. */
  datatype Sched = Sched(rings: seq<seq<nat>>, current: Option<nat>, procs: seq<Pcb>)

  datatype Dispatch = Returned | SwitchedTo(id: nat, pageDir: nat, loaded: CpuState)

  function Empty(): (s: Sched)
    ensures |s.rings| == PROCESS_PRIORITY_MAX + 1 && forall p :: 0 <= p < |s.rings| ==> s.rings[p] == []
  {
    Sched(seq(PROCESS_PRIORITY_MAX + 1, _ => []), None, [])
  }

  ghost predicate IdsBelow(rings: seq<seq<nat>>, n: nat) {
    forall p, k :: 0 <= p < |rings| && 0 <= k < |rings[p]| ==> rings[p][k] < n
  }

  ghost predicate WellFormed(s: Sched) {
    && |s.rings| == PROCESS_PRIORITY_MAX + 1
    && IdsBelow(s.rings, |s.procs|)
    && (s.current.Some? ==> s.current.value < |s.procs|)
  }

  /** The registers a new process starts with; the selector choice is the source's flag test. */
  function SpawnState(entryPoint: nat, stackTop: nat, flags: nat): CpuState {
    var supervisor := TestFlag(flags, PROCESS_FLAGS_SUPERVISOR);
    var code, data := if supervisor then 0x08 else 0x1B, if supervisor then 0x10 else 0x23;
    ZERO_STATE.(cs := code, ds := data, es := data, fs := data, gs := data, ss := data,
                eip := entryPoint, esp := stackTop)
  }

  /** Registers of a process about to start: at its entry point, with an empty stack, in the kernel's
      segments, and zero otherwise. */
  predicate StartsAt(r: CpuState, entryPoint: nat, stackTop: nat) {
    && r.eip == entryPoint && r.esp == stackTop
    && r.cs == 0x08 && r.ds == 0x10 && r.es == 0x10 && r.fs == 0x10 && r.gs == 0x10 && r.ss == 0x10
    && r.eax == 0 && r.ebx == 0 && r.ecx == 0 && r.edx == 0 && r.ebp == 0 && r.esi == 0 && r.edi == 0 && r.eflags == 0
    && r.cr0 == 0 && r.cr2 == 0 && r.cr3 == 0 && r.cr4 == 0 && r.interrupt == 0 && r.errorCode == 0
  }

  /** Whatever its flags, a process is given such registers. */
  lemma SpawnStarts(entryPoint: nat, stackTop: nat, flags: nat)
    ensures StartsAt(SpawnState(entryPoint, stackTop, flags), entryPoint, stackTop)
  {
    assert And(flags, 0) == 0;
  }

  /** A new process joins its ring as `last`; the first of a ring also becomes current. */
  function Spawn(s: Sched, pageDir: nat, priority: nat, state: CpuState): Sched
    requires priority < |s.rings|
  {
    var id := |s.procs|;
    Sched(s.rings[priority := s.rings[priority] + [id]],
          if s.rings[priority] == [] then Some(id) else s.current,
          s.procs + [Pcb(false, pageDir, state)])
  }

  /** The interrupted registers go to the current process, if both are known. */
  function Save(s: Sched, regs: Option<CpuState>): Sched {
    if regs.Some? && s.current.Some? && s.current.value < |s.procs|
    then s.(procs := s.procs[s.current.value := s.procs[s.current.value].(state := regs.value)])
    else s
  }

  predicate Runnable(procs: seq<Pcb>, id: nat) {
    id < |procs| && !procs[id].blocked
  }

  /** The position of the first unblocked process of a ring, or the ring's length. */
  function FirstRunnable(ring: seq<nat>, procs: seq<Pcb>): (k: nat)
    ensures k <= |ring|
    ensures k < |ring| ==> Runnable(procs, ring[k])
    ensures forall j :: 0 <= j < k ==> !Runnable(procs, ring[j])
  {
    if ring == [] || Runnable(procs, ring[0]) then 0 else 1 + FirstRunnable(ring[1..], procs)
  }

  /** The ring after its k-th member has become `last`. */
  function Rotate(ring: seq<nat>, k: nat): seq<nat>
    requires k < |ring|
  {
    ring[k + 1..] + ring[..k + 1]
  }

  /** The highest priority up to p with an unblocked process, or -1. */
  function HighestRunnable(s: Sched, p: int): (q: int)
    requires -1 <= p < |s.rings|
    ensures -1 <= q <= p
    ensures q >= 0 ==> FirstRunnable(s.rings[q], s.procs) < |s.rings[q]|
    ensures forall r :: q < r <= p ==> FirstRunnable(s.rings[r], s.procs) == |s.rings[r]|
    decreases p + 1
  {
    if p < 0 || FirstRunnable(s.rings[p], s.procs) < |s.rings[p]| then p else HighestRunnable(s, p - 1)
  }

  /** The first unblocked process after `last` in the highest queue that has one becomes `last`
      and current, and its registers are loaded. */
  function Pick(s: Sched): (Sched, Dispatch) {
    var p := HighestRunnable(s, |s.rings| - 1);
    if p < 0 then (s, Returned)
    else
      var k := FirstRunnable(s.rings[p], s.procs);
      var id := s.rings[p][k];
      (s.(rings := s.rings[p := Rotate(s.rings[p], k)], current := Some(id)),
       SwitchedTo(id, s.procs[id].pageDir, s.procs[id].state))
  }

  /** The search may stop at the first queue, from the top, in which it succeeds. */
  lemma PickFrom(s: Sched, p: nat, k: nat)
    requires |s.rings| == PROCESS_PRIORITY_MAX + 1 && p <= PROCESS_PRIORITY_MAX
    requires HighestRunnable(s, p) == HighestRunnable(s, PROCESS_PRIORITY_MAX)
    requires k == FirstRunnable(s.rings[p], s.procs) && k < |s.rings[p]|
    ensures var id := s.rings[p][k];
            Pick(s) == (s.(rings := s.rings[p := Rotate(s.rings[p], k)], current := Some(id)),
                        SwitchedTo(id, s.procs[id].pageDir, s.procs[id].state))
  {
  }

  lemma PickNothing(s: Sched)
    requires |s.rings| == PROCESS_PRIORITY_MAX + 1 && HighestRunnable(s, PROCESS_PRIORITY_MAX) == -1
    ensures Pick(s) == (s, Returned)
  {
  }

  function Switch(s: Sched, regs: Option<CpuState>): (Sched, Dispatch) {
    Pick(Save(s, regs))
  }

  function SetBlocked(s: Sched, id: nat, blocked: bool): Sched
    requires id < |s.procs|
  {
    s.(procs := s.procs[id := s.procs[id].(blocked := blocked)])
  }
}
