/** Whose registers a switch saves. The code saves them for current_process, which a spawn into an
    empty queue replaces without running the new process (src/sched/process.c:115-120, 147-149). */
module SchedulerContext {
  import opened Wrappers
  import opened SchedulerModel
  import opened SchedulerRuns

  /** The process that is running: the one dispatched last. */
  function Running(es: seq<Event>): Option<nat> {
    if es == [] then None
    else
      var before, e := es[..|es| - 1], es[|es| - 1];
      if e.Switching? && Switch(Run(before), e.regs).1.SwitchedTo? then Some(Switch(Run(before), e.regs).1.id)
      else Running(before)
  }

  /** The first process spawned at its priority, so that its queue was empty. */
  predicate SpawnsFirst(before: seq<Event>, e: Event) {
    e.Spawning? && e.priority <= PROCESS_PRIORITY_MAX && e.priority !in Spawned(before)
  }

  /** Since the last dispatch no process was spawned into an empty queue. */
  predicate Undisturbed(es: seq<Event>) {
    if es == [] then true
    else
      var before, e := es[..|es| - 1], es[|es| - 1];
      if e.Switching? && Switch(Run(before), e.regs).1.SwitchedTo? then true
      else !SpawnsFirst(before, e) && Undisturbed(before)
  }

  lemma StepCurrent(es: seq<Event>, e: Event)
    ensures var s, t := Run(es), Step(Run(es), e);
            t.current ==
              if e.Switching? && Switch(s, e.regs).1.SwitchedTo? then Some(Switch(s, e.regs).1.id)
              else if SpawnsFirst(es, e) then Some(|s.procs|)
              else s.current
    ensures e.Switching? && Switch(Run(es), e.regs).1.SwitchedTo? ==> Switch(Run(es), e.regs).1.id < |Run(es).procs|
    ensures |Step(Run(es), e).procs| >= |Run(es).procs|
  {
    hide HighestRunnable, FirstRunnable, Partitioned, Spawned, Run;
    RunWellFormed(es);
    RingsPartitionProcesses(es);
    StepSaves(Run(es), e, 0);
    if e.Spawning? && e.priority <= PROCESS_PRIORITY_MAX {
      EmptyQueue(Run(es).rings, Spawned(es), e.priority);
    }
  }

  lemma EmptyQueue(rings: seq<seq<nat>>, spawned: seq<nat>, p: nat)
    requires Partitioned(rings, spawned) && p < |rings|
    ensures rings[p] == [] <==> p !in spawned
  {
    if rings[p] == [] {
      forall id | 0 <= id < |spawned|
        ensures spawned[id] != p
      {
        assert id !in rings[p];
      }
    } else {
      assert rings[p][0] in rings[p];
    }
  }

  /** The process for which registers are saved is the one that is running exactly if no process was
      spawned into an empty queue since its dispatch. */
  lemma {:induction false} CurrentIsRunning(es: seq<Event>)
    ensures Run(es).current == Running(es) <==> Undisturbed(es)
    ensures Running(es).Some? ==> Running(es).value < |Run(es).procs| && Run(es).current.Some?
  {
    hide Step, Switch, SpawnsFirst;
    if es == [] {
    } else {
      CurrentIsRunning(es[..|es| - 1]);
      StepCurrent(es[..|es| - 1], es[|es| - 1]);
    }
  }

  /** So whatever registers the next switch is given, they are saved for the interrupted process
      exactly if no such spawn came in between. */
  lemma SavedForItsOwner(es: seq<Event>, x: nat)
    requires Running(es) == Some(x)
    ensures x < |Run(es).procs|
    ensures Undisturbed(es) <==> forall r: CpuState :: Save(Run(es), Some(r)).procs[x].state == r
  {
    hide Run, Running, Undisturbed;
    CurrentIsRunning(es);
    RunWellFormed(es);
    var saved := Run(es).procs[x].state;
    var r := saved.(eax := saved.eax + 1);
    assert r != saved;
    if !Undisturbed(es) {
      assert Save(Run(es), Some(r)).procs[x].state == saved;
    }
  }

  /** After such a spawn the registers of the interrupted process replace the start state of the new
      one, and are lost to their owner. */
  lemma RegistersGoToNewcomer(es: seq<Event>, e: Event, x: nat, r: CpuState)
    requires Running(es) == Some(x) && SpawnsFirst(es, e)
    ensures var s, t := Run(es), Save(Run(es + [e]), Some(r));
            && x < |s.procs| && |t.procs| == |s.procs| + 1
            && t.procs[x].state == s.procs[x].state && t.procs[|s.procs|].state == r
  {
    hide Run, Running, SpawnsFirst, SpawnState;
    CurrentIsRunning(es);
    RunWellFormed(es);
    RunSnoc(es, e);
    StepCurrent(es, e);
    StepSaves(Run(es), e, x);
    FirstIsSpawn(es, e);
  }

  lemma FirstIsSpawn(es: seq<Event>, e: Event)
    requires SpawnsFirst(es, e)
    ensures e.Spawning? && e.priority <= PROCESS_PRIORITY_MAX
  {
  }

  lemma RunSnoc(es: seq<Event>, e: Event)
    ensures Run(es + [e]) == Step(Run(es), e)
  {
    assert (es + [e])[..|es|] == es;
  }

  // ---------- Whole runs ----------

  /** The registers that process x should resume with: those it was interrupted with last, or those
      it was spawned with. */
  function Own(es: seq<Event>, x: nat): Option<CpuState> {
    if es == [] then None
    else
      var before, e := es[..|es| - 1], es[|es| - 1];
      match e
      case Spawning(entryPoint, _, priority, stackTop, flags) =>
        if priority <= PROCESS_PRIORITY_MAX && |Spawned(before)| == x
        then Some(SpawnState(entryPoint, stackTop, flags)) else Own(before, x)
      case Switching(regs) => if regs.Some? && Running(before) == Some(x) then regs else Own(before, x)
      case Blocking(_, _) => Own(before, x)
  }

  ghost predicate AllOwn(es: seq<Event>) {
    forall x: nat :: x < |Run(es).procs| ==> Own(es, x) == Some(Run(es).procs[x].state)
  }

  /** At every point of the run every process has its own registers saved. */
  ghost predicate AlwaysOwn(es: seq<Event>) {
    AllOwn(es) && (es != [] ==> AlwaysOwn(es[..|es| - 1]))
  }

  /** No switch saves registers after a spawn into an empty queue that came after the last dispatch. */
  predicate Orderly(es: seq<Event>) {
    if es == [] then true
    else
      var before, e := es[..|es| - 1], es[|es| - 1];
      Orderly(before) && (e.Switching? && e.regs.Some? ==> Undisturbed(before))
  }

  lemma {:induction false} OrderlyKeepsContexts(es: seq<Event>)
    requires Orderly(es)
    ensures AlwaysOwn(es)
  {
    hide Step, Switch, SpawnState, Running, Undisturbed;
    if es == [] {
    } else {
      var before, e := es[..|es| - 1], es[|es| - 1];
      OrderlyKeepsContexts(before);
      RunWellFormed(before);
      RingsPartitionProcesses(before);
      CurrentIsRunning(before);
      forall x: nat | x < |Run(es).procs|
        ensures Own(es, x) == Some(Run(es).procs[x].state)
      {
        StepSaves(Run(before), e, x);
      }
    }
  }

  /** The same events, save for the values of the registers. */
  predicate SameShape(es: seq<Event>, fs: seq<Event>) {
    |es| == |fs| && forall i :: 0 <= i < |es| ==> Alike(es[i], fs[i])
  }

  predicate Alike(e: Event, f: Event) {
    e == f || (e.Switching? && f.Switching? && e.regs.Some? && f.regs.Some?)
  }

  /** What the scheduler decides by. */
  ghost predicate SameOrder(s: Sched, t: Sched) {
    s.rings == t.rings && s.current == t.current && SameBlocked(s.procs, t.procs)
  }

  lemma SwitchDecides(s: Sched, t: Sched, a: Option<CpuState>, b: Option<CpuState>)
    requires WellFormed(s) && WellFormed(t) && SameOrder(s, t)
    ensures SameOrder(Switch(s, a).0, Switch(t, b).0)
    ensures Switch(s, a).1.SwitchedTo? <==> Switch(t, b).1.SwitchedTo?
  {
    hide HighestRunnable, FirstRunnable;
    var s1, t1 := Save(s, a), Save(t, b);
    HighestSame(s1, t1, PROCESS_PRIORITY_MAX);
    var p := HighestRunnable(s1, PROCESS_PRIORITY_MAX);
    if p >= 0 {
      FirstSame(s1.rings[p], s1.procs, t1.procs);
    }
  }

  lemma StepDecides(s: Sched, t: Sched, e: Event, f: Event)
    requires WellFormed(s) && WellFormed(t) && SameOrder(s, t) && Alike(e, f)
    ensures SameOrder(Step(s, e), Step(t, f))
    ensures e.Switching? ==> (Switch(s, e.regs).1.SwitchedTo? <==> Switch(t, f.regs).1.SwitchedTo?)
  {
    hide Switch, SpawnState;
    if e.Switching? {
      SwitchDecides(s, t, e.regs, f.regs);
    }
  }

  lemma {:induction false} ShapeDecides(es: seq<Event>, fs: seq<Event>)
    requires SameShape(es, fs)
    ensures SameOrder(Run(es), Run(fs)) && Spawned(es) == Spawned(fs)
    ensures Undisturbed(es) <==> Undisturbed(fs)
    ensures Orderly(es) <==> Orderly(fs)
    decreases |es|
  {
    hide Step, Switch, SameOrder, WellFormed;
    if es == [] {
      assert SameOrder(Run(es), Run(fs)) by { EmptyOrder(); }
    } else {
      var a, b, e, f := es[..|es| - 1], fs[..|fs| - 1], es[|es| - 1], fs[|fs| - 1];
      assert Alike(e, f);
      ShapeDecides(a, b);
      RunWellFormed(a);
      RunWellFormed(b);
      StepDecides(Run(a), Run(b), e, f);
    }
  }

  lemma EmptyOrder()
    ensures SameOrder(Empty(), Empty())
  {
  }

  /** A disorderly run has registers with which some process is given those of another one. */
  lemma {:induction false} DisorderSpoils(es: seq<Event>) returns (fs: seq<Event>)
    requires !Orderly(es)
    ensures SameShape(es, fs) && !AlwaysOwn(fs)
  {
    hide Step, Switch, Undisturbed, Running, AllOwn;
    var before, e := es[..|es| - 1], es[|es| - 1];
    if !Orderly(before) {
      fs := DisorderSpoils(before);
      fs := fs + [e];
      assert fs[..|fs| - 1] == fs[..|es| - 1];
    } else {
      var r := SpoiltSave(before);
      fs := before + [Switching(Some(r))];
    }
  }

  /** Registers that show that they were saved for another process. */
  lemma SpoiltSave(es: seq<Event>) returns (r: CpuState)
    requires !Undisturbed(es)
    ensures !AllOwn(es + [Switching(Some(r))])
  {
    hide Step, Switch, Undisturbed, Running;
    CurrentIsRunning(es);
    RunWellFormed(es);
    var y := Run(es).current.value;
    var own := Own(es, y);
    r := if own.Some? then own.value.(eax := own.value.eax + 1) else ZERO_STATE;
    var fs := es + [Switching(Some(r))];
    assert fs[..|es|] == es;
    StepSaves(Run(es), Switching(Some(r)), y);
    RunSnoc(es, Switching(Some(r)));
    assert Own(fs, y) == own;
  }

  /** Context preservation for the processes that run: with any registers, every process always has
      its own saved, exactly if no spawn into an empty queue came between a dispatch and the next
      switch that saves. */
  lemma ContextsAreOwn(es: seq<Event>)
    ensures Orderly(es) <==> forall fs | SameShape(es, fs) :: AlwaysOwn(fs)
  {
    if Orderly(es) {
      forall fs | SameShape(es, fs)
        ensures AlwaysOwn(fs)
      {
        ShapeDecides(es, fs);
        OrderlyKeepsContexts(fs);
      }
    } else {
      var fs := DisorderSpoils(es);
    }
  }

  /** In an orderly run a dispatch loads the registers that the process itself was interrupted with
      last, or those it was spawned with. */
  lemma ResumesWithItsOwn(es: seq<Event>, regs: Option<CpuState>)
    requires Orderly(es + [Switching(regs)])
    ensures var d := Switch(Run(es), regs).1;
            d.SwitchedTo? ==> Own(es + [Switching(regs)], d.id) == Some(d.loaded)
  {
    var d, fs := Switch(Run(es), regs).1, es + [Switching(regs)];
    OrderlyKeepsContexts(fs);
    RunSnoc(es, Switching(regs));
    RunWellFormed(es);
    SwitchLeaves(Run(es), regs);
  }

  lemma SwitchLeaves(s: Sched, regs: Option<CpuState>)
    requires WellFormed(s)
    ensures var t, d := Switch(s, regs).0, Switch(s, regs).1;
            d.SwitchedTo? ==> d.id < |t.procs| && t.procs[d.id].state == d.loaded
  {
    hide HighestRunnable, FirstRunnable;
  }
}
