/** The process queues as linked rings (src/sched/process.c). */
module Scheduler {
  import opened Wrappers
  import opened SchedulerModel
  import opened Rings

  /** A process table entry. */
  class Process {
    const id: nat
    var blocked: bool
    const pageDir: nat
    var state: CpuState
    const stack: nat
    const stackSize: nat
    const flags: nat
    var next: Process?

    constructor (id: nat, pageDir: nat, stack: nat, stackSize: nat, flags: nat)
      ensures this.id == id && this.pageDir == pageDir && this.flags == flags
      ensures this.stack == stack && this.stackSize == stackSize
      ensures !blocked && state == ZERO_STATE && next == null
    {
      this.id, this.pageDir, this.stack, this.stackSize, this.flags := id, pageDir, stack, stackSize, flags;
      blocked, state, next := false, ZERO_STATE, null;
    }

    function Entry(): Pcb
      reads this
    {
      Pcb(blocked, pageDir, state)
    }
  }

  /** Processes stand at their ids, and their `next` pointers are the links. */
  ghost predicate Chained(table: seq<Process>, links: seq<nat>)
    reads table
  {
    && |table| == |links|
    && (forall i :: 0 <= i < |table| ==> table[i].id == i)
    && (forall i :: 0 <= i < |links| ==> links[i] < |table|)
    && (forall i {:trigger table[i].next} :: 0 <= i < |table| ==> table[i].next == table[links[i]])
  }

  /** Each queue's `last` is the last process of its ring. */
  ghost predicate Ended(last: array<Process?>, rings: seq<seq<nat>>, table: seq<Process>)
    reads last
  {
    && last.Length == |rings|
    && (forall p :: 0 <= p < |rings| ==> rings[p] == [] || rings[p][|rings[p]| - 1] < |table|)
    && (forall p :: 0 <= p < |rings| ==>
          last[p] == if rings[p] == [] then null else table[rings[p][|rings[p]| - 1]])
  }

  class Processes {
    const last: array<Process?>          // the queues: the process of each that executed last
    var current: Process?
    var numProcesses: nat
    ghost var table: seq<Process>        // every process, by id
    ghost var links: seq<nat>            // the id of every process's `next`
    ghost var home: seq<nat>             // the queue of every process
    ghost var rings: seq<seq<nat>>       // each queue, from the process after `last` round to `last`

    ghost predicate Valid()
      reads this, last, table
      ensures Valid() ==> |rings| == PROCESS_PRIORITY_MAX + 1
    {
      && last.Length == |rings| == PROCESS_PRIORITY_MAX + 1
      && numProcesses == |table| == |links| == |home|
      && Chained(table, links) && Shape(rings, links, home) && Ended(last, rings, table)
      && (current != null ==> current.id < |table| && table[current.id] == current)
    }

    /** The state as a value. */
    ghost function State(): (s: Sched)
      requires Valid()
      reads this, last, table
      ensures s.rings == rings && |s.procs| == |table|
    {
      Sched(rings, if current == null then None else Some(current.id),
            seq(|table|, i requires 0 <= i < |table| reads this, table => table[i].Entry()))
    }

    constructor ()
      ensures Valid() && fresh(last) && State() == Empty() && table == []
    {
      last := new Process?[PROCESS_PRIORITY_MAX + 1](_ => null);
      current, numProcesses := null, 0;
      table, links, home, rings := [], [], [], seq(PROCESS_PRIORITY_MAX + 1, _ => []);
    }

    /** process_spawn. `newStack` is the address kmalloc returns when no stack is given. */
    method Spawn(entryPoint: nat, pageDir: nat, priority: nat, stackAddr: nat, stackSize: nat, flags: nat,
                 newStack: nat)
      returns (id: int)
      requires Valid() && numProcesses < 0x8000_0000
      requires entryPoint > 0 && stackSize > 0
      modifies this, table, last
      ensures Valid()
      ensures priority > PROCESS_PRIORITY_MAX ==> id == -1 && State() == old(State()) && table == old(table)
      ensures priority <= PROCESS_PRIORITY_MAX ==>
                && id == |old(table)| && |table| == |old(table)| + 1 && table[..id] == old(table) && fresh(table[id])
                && var stack := if stackAddr == 0 then newStack else stackAddr;
                   && State() == SchedulerModel.Spawn(old(State()), pageDir, priority, SpawnState(entryPoint, stack + stackSize, flags))
                   && StartsAt(State().procs[id].state, entryPoint, stack + stackSize)
                   && State().procs[id].pageDir == pageDir && !State().procs[id].blocked
    {
      hide Chained, Ended, Shape, SpawnState, StartsAt;
      if priority > PROCESS_PRIORITY_MAX {
        return -1;
      }
      var stack := if stackAddr == 0 then newStack else stackAddr;
      SpawnStarts(entryPoint, stack + stackSize, flags);
      var process := new Process(numProcesses, pageDir, stack, stackSize, flags);
      process.state := SpawnState(entryPoint, process.stack + process.stackSize, process.flags);
      Enqueue(process, priority);
      id := process.id;
    }

    /** The `next` links once a new process follows whatever executed last in a queue. */
    ghost function LinksWith(priority: nat): seq<nat>
      requires Valid() && priority <= PROCESS_PRIORITY_MAX
      reads this, last, table
    {
      var ring := rings[priority];
      if ring == [] then links + [|table|]
      else links[ring[|ring| - 1] := |table|] + [links[ring[|ring| - 1]]]
    }

    /** Adds a new process to its queue: after whatever executed last, and last itself. */
    method Enqueue(process: Process, priority: nat)
      requires Valid() && priority <= PROCESS_PRIORITY_MAX
      requires process !in table && process.id == numProcesses
      modifies this, table, last, process`next
      ensures Valid() && table == old(table) + [process]
      ensures State() == SchedulerModel.Spawn(old(State()), process.pageDir, priority, process.state).(
                           procs := old(State()).procs + [old(process.Entry())])
    {
      hide Shape, OneRing, Valid;
      ghost var procs, entry := State().procs, process.Entry();
      Insert(process, priority);
      assert State().procs == procs + [entry];
    }

    /** The linking, with what it leaves unchanged. */
    method Insert(process: Process, priority: nat)
      requires Valid() && priority <= PROCESS_PRIORITY_MAX
      requires process !in table && process.id == numProcesses
      modifies this, table`next, last, process`next
      ensures Valid() && table == old(table) + [process] && process.id == |old(table)|
      ensures rings == old(rings)[priority := old(rings)[priority] + [process.id]]
      ensures current == if old(rings)[priority] == [] then process else old(current)
    {
      hide Shape, OneRing, Chained, Ended;
      ghost var links' := LinksWith(priority);
      SpawnKeepsShape(rings, links, home, priority, links');
      Link(process, priority, links');
      numProcesses := numProcesses + 1;
      table, home, links := table + [process], home + [priority], links';
      rings := rings[priority := rings[priority] + [process.id]];
    }

    method Link(process: Process, priority: nat, ghost links': seq<nat>)
      requires Valid() && priority <= PROCESS_PRIORITY_MAX
      requires process !in table && process.id == |table| && links' == LinksWith(priority)
      modifies this`current, table`next, last, process`next
      ensures Chained(table + [process], links')
      ensures Ended(last, rings[priority := rings[priority] + [process.id]], table + [process])
      ensures current == if rings[priority] == [] then process else old(current)
    {
      if last[priority] == null {
        last[priority] := process;
        process.next := process;
        current := process;
      } else {
        assert OneRing(rings[priority], priority, links, home);
        process.next := last[priority].next;
        last[priority].next := process;
        last[priority] := process;
      }
    }

    /** The environment blocks or unblocks a process. */
    method SetBlocked(process: Process, blocked: bool)
      requires Valid() && process in table
      modifies process`blocked
      ensures Valid() && State() == SchedulerModel.SetBlocked(old(State()), process.id, blocked)
      ensures process.blocked == blocked
    {
      ghost var s := State();
      process.blocked := blocked;
      assert State().procs == SchedulerModel.SetBlocked(s, process.id, blocked).procs;
    }

    /** process_switch. Loading a process's registers never returns, so the method ends there and
        reports what was loaded. */
    method Switch(regs: Option<CpuState>) returns (d: Dispatch)
      requires Valid()
      modifies this`current, this`rings, table, last
      ensures Valid()
      ensures State() == SchedulerModel.Switch(old(State()), regs).0
      ensures d == SchedulerModel.Switch(old(State()), regs).1
    {
      SaveRegisters(regs);
      d := SelectQueue();
    }

    /** Tries each queue, starting at the highest. */
    method SelectQueue() returns (d: Dispatch)
      requires Valid()
      modifies this`current, this`rings, last
      ensures Valid()
      ensures State() == Pick(old(State())).0
      ensures d == Pick(old(State())).1
    {
      hide Valid, Pick;
      ghost var s := State();
      var priority: int := PROCESS_PRIORITY_MAX;
      while priority >= 0
        invariant -1 <= priority <= PROCESS_PRIORITY_MAX
        invariant Valid() && State() == s
        invariant HighestRunnable(s, priority) == HighestRunnable(s, PROCESS_PRIORITY_MAX)
      {
        var process, k := Search(priority);
        if process != null {
          PickFrom(s, priority, k);
          SwitchTo(process, priority, k);
          return SwitchedTo(process.id, process.pageDir, process.state);
        }
        priority := priority - 1;
      }
      PickNothing(s);
      d := Returned;
    }

    /** Updates the register state of the process that was executing. */
    method SaveRegisters(regs: Option<CpuState>)
      requires Valid()
      modifies table`state
      ensures Valid() && State() == Save(old(State()), regs)
    {
      ghost var s := State();
      if regs.Some? && current != null {
        current.state := regs.value;
      }
      assert State().procs == Save(s, regs).procs;
    }

    /** `process` is the k-th of its queue after `last`. */
    ghost predicate At(process: Process?, priority: nat, k: nat)
      requires Valid() && priority <= PROCESS_PRIORITY_MAX
      reads this, last, table
      ensures At(process, priority, k) ==>
                && k < |rings[priority]| && rings[priority][k] < |table| && process == table[rings[priority][k]]
                && process.id == rings[priority][k]
                && process.Entry() == State().procs[process.id]
    {
      k < |rings[priority]| && rings[priority][k] < |table| && process == table[rings[priority][k]]
    }

    /** Goes round one queue from after `last` until a process is not blocked. */
    method Search(priority: nat) returns (process: Process?, ghost k: nat)
      requires Valid() && priority <= PROCESS_PRIORITY_MAX
      ensures k == FirstRunnable(rings[priority], State().procs)
      ensures var j := FirstRunnable(rings[priority], State().procs);
              if j < |rings[priority]| then At(process, priority, j) else process == null
    {
      ghost var ring := rings[priority];
      process, k := last[priority], 0;
      if process == null {
        return;
      }
      assert OneRing(ring, priority, links, home);
      while true
        invariant 0 <= k < |ring|
        invariant process == table[if k == 0 then ring[|ring| - 1] else ring[k - 1]]
        invariant forall j :: 0 <= j < k ==> !Runnable(State().procs, ring[j])
        decreases |ring| - k
      {
        process := process.next;
        assert process == table[ring[k]];
        if !process.blocked {
          return;
        }
        k := k + 1;
        if process == last[priority] {
          break;
        }
      }
      process := null;
    }

    method SwitchTo(process: Process, priority: nat, ghost k: nat)
      requires Valid() && priority <= PROCESS_PRIORITY_MAX
      requires At(process, priority, k)
      modifies this`current, this`rings, last
      ensures Valid()
      ensures State() == old(State()).(rings := old(rings)[priority := Rotate(old(rings)[priority], k)],
                                       current := Some(process.id))
    {
      SwitchKeepsShape(rings, links, home, priority, k);
      hide Chained, Shape, OneRing;
      assert Rotate(rings[priority], k)[|rings[priority]| - 1] == rings[priority][k];
      last[priority] := process;
      current := process;
      rings := rings[priority := Rotate(rings[priority], k)];
    }

    /** The process reached by following `next` n times. */
    ghost function Follow(process: Process?, n: nat): Process?
      reads this, table
    {
      if n == 0 then process
      else var q := Follow(process, n - 1); if q in table then q.next else null
    }

    /** From a queue's `last`, `next` visits every process of the queue once, in ring order, and
        comes back to `last` after exactly one round. */
    lemma {:induction false} FollowVisits(priority: nat, k: nat)
      requires Valid() && priority <= PROCESS_PRIORITY_MAX && k < |rings[priority]|
      ensures At(Follow(last[priority], k + 1), priority, k)
      ensures Follow(last[priority], |rings[priority]|) == last[priority]
      ensures forall j :: 0 <= j < |rings[priority]| && j != k ==> rings[priority][j] != rings[priority][k]
    {
      FollowNext(priority, k);
      FollowNext(priority, |rings[priority]| - 1);
      assert OneRing(rings[priority], priority, links, home);
    }

    lemma {:induction false} FollowNext(priority: nat, k: nat)
      requires Valid() && priority <= PROCESS_PRIORITY_MAX && k < |rings[priority]|
      ensures At(Follow(last[priority], k + 1), priority, k)
    {
      var ring := rings[priority];
      assert OneRing(ring, priority, links, home);
      if k == 0 {
        assert Follow(last[priority], 0) == table[ring[|ring| - 1]];
      } else {
        FollowNext(priority, k - 1);
        assert Follow(last[priority], k) == table[ring[k - 1]];
      }
    }
  }
}
