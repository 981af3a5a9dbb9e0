/** Properties of whole runs of the scheduler (src/sched/process.c). */
module SchedulerRuns {
  import opened Wrappers
  import opened Bits
  import opened SchedulerModel

  // ---------- What one switch selects ----------

  /** Process `id` is the first unblocked one after `last` (`last` itself tried last of all) in
      the highest queue that has one, at position k of queue p. */
  ghost predicate FirstInHighest(s: Sched, p: nat, k: nat, id: nat)
    requires WellFormed(s)
  {
    && p < |s.rings| && k < |s.rings[p]|
    && id == s.rings[p][k] && !s.procs[id].blocked
    && (forall j :: 0 <= j < k ==> s.procs[s.rings[p][j]].blocked)
    && (forall q, j :: p < q < |s.rings| && 0 <= j < |s.rings[q]| ==> s.procs[s.rings[q][j]].blocked)
  }

  ghost predicate TurnsOneRing(s: Sched, t: Sched, id: nat)
    requires WellFormed(s)
  {
    exists p: nat, k: nat :: FirstInHighest(s, p, k, id) &&
      t.rings == s.rings[p := s.rings[p][k + 1..] + s.rings[p][..k] + [id]]
  }

  ghost predicate AllBlocked(s: Sched)
    requires WellFormed(s)
  {
    forall p, k :: 0 <= p < |s.rings| && 0 <= k < |s.rings[p]| ==> s.procs[s.rings[p][k]].blocked
  }

  /** process_switch runs the first unblocked process of the highest queue that has one, and only
      that ring turns; it comes back exactly when every process is blocked, and then leaves the
      queues and the current process as they were. */
  lemma SwitchSelects(s: Sched, regs: Option<CpuState>)
    requires WellFormed(s)
    ensures SameBlocked(s.procs, Switch(s, regs).0.procs)
    ensures Switch(s, regs).1.Returned? <==> AllBlocked(s)
    ensures AllBlocked(s) ==> Switch(s, regs).0.rings == s.rings && Switch(s, regs).0.current == s.current
    ensures !AllBlocked(s) ==>
              && Switch(s, regs).0.current == Some(Switch(s, regs).1.id)
              && TurnsOneRing(s, Switch(s, regs).0, Switch(s, regs).1.id)
  {
    hide HighestRunnable, FirstRunnable;
    var s1 := Save(s, regs);
    var p := HighestRunnable(s1, PROCESS_PRIORITY_MAX);
    assert SameBlocked(s.procs, s1.procs);
    if p >= 0 {
      var ring := s.rings[p];
      var k := FirstRunnable(ring, s1.procs);
      assert Rotate(ring, k) == ring[k + 1..] + ring[..k] + [ring[k]];
      forall q, j | p < q < |s.rings| && 0 <= j < |s.rings[q]|
        ensures s.procs[s.rings[q][j]].blocked
      {
        assert !Runnable(s1.procs, s.rings[q][j]);
      }
      assert FirstInHighest(s, p, k, ring[k]);
    } else {
      forall q, j | 0 <= q < |s.rings| && 0 <= j < |s.rings[q]|
        ensures s.procs[s.rings[q][j]].blocked
      {
        assert !Runnable(s1.procs, s.rings[q][j]);
      }
    }
  }

  ghost predicate SameBlocked(a: seq<Pcb>, b: seq<Pcb>) {
    |a| == |b| && forall i :: 0 <= i < |a| ==> a[i].blocked == b[i].blocked
  }

  // ---------- Round robin ----------

  /** The unblocked processes of a ring, in ring order. */
  function Unblocked(ring: seq<nat>, procs: seq<Pcb>): seq<nat> {
    if ring == [] then []
    else if Runnable(procs, ring[0]) then [ring[0]] + Unblocked(ring[1..], procs)
    else Unblocked(ring[1..], procs)
  }

  /** What a run of consecutive switches dispatches. */
  function Turns(s: Sched, regs: seq<Option<CpuState>>): (ds: seq<Dispatch>)
    ensures |ds| == |regs|
    decreases |regs|
  {
    if regs == [] then []
    else
      [Switch(s, regs[0]).1] + Turns(Switch(s, regs[0]).0, regs[1..])
  }

  lemma SwitchWellFormed(s: Sched, regs: Option<CpuState>)
    requires WellFormed(s)
    ensures WellFormed(Switch(s, regs).0)
  {
    hide FirstRunnable, HighestRunnable;
    var s1 := Save(s, regs);
    var p := HighestRunnable(s1, PROCESS_PRIORITY_MAX);
    if p >= 0 {
      var k := FirstRunnable(s1.rings[p], s1.procs);
      forall j | 0 <= j < |s.rings[p]|
        ensures Rotate(s.rings[p], k)[j] in s.rings[p]
      {
      }
    }
  }

  /** The k-th member of the endless repetition of `u`. */
  function Cycle(u: seq<nat>, k: nat): nat
    requires |u| > 0
  {
    u[k % |u|]
  }

  ghost predicate TakesTurns(ds: seq<Dispatch>, u: seq<nat>) {
    |u| > 0 && forall k :: 0 <= k < |ds| ==> ds[k].SwitchedTo? && ds[k].id == Cycle(u, k)
  }

  /** Fairness. While blocked flags stay put and nothing is spawned, the unblocked processes of
      the highest runnable queue take turns in ring order, for ever. */
  lemma {:induction false} RoundRobin(s: Sched, regs: seq<Option<CpuState>>, p: nat)
    requires WellFormed(s) && HighestRunnable(s, PROCESS_PRIORITY_MAX) == p
    ensures TakesTurns(Turns(s, regs), Unblocked(s.rings[p], s.procs))
    decreases |regs|
  {
    hide Switch, Unblocked, Cycle;
    var u := Unblocked(s.rings[p], s.procs);
    RotateUnblocked(s.rings[p], s.procs);
    if regs == [] {
    } else {
      OneTurn(s, regs[0], p);
      var t := Switch(s, regs[0]).0;
      RoundRobin(t, regs[1..], p);
      var ds, rest := Turns(s, regs), Turns(t, regs[1..]);
      forall k | 0 <= k < |ds|
        ensures ds[k].SwitchedTo? && ds[k].id == Cycle(u, k)
      {
        if k == 0 {
          CycleStart(u);
        } else {
          CycleRotated(u, k - 1);
          assert ds[k] == rest[k - 1];
        }
      }
    }
  }

  lemma CycleStart(u: seq<nat>)
    requires |u| > 0
    ensures Cycle(u, 0) == u[0]
  {
    DivModUnique(0, |u|, 0, 0);
  }

  lemma CycleRotated(u: seq<nat>, k: nat)
    requires |u| > 0
    ensures Cycle(u[1..] + [u[0]], k) == Cycle(u, k + 1)
  {
    var m, q := |u|, k / |u|;
    if k % m == m - 1 {
      assert (q + 1) * m == q * m + m;
      DivModUnique(k + 1, m, q + 1, 0);
    } else {
      DivModUnique(k + 1, m, q, k % m + 1);
    }
  }

  lemma OneTurn(s: Sched, regs: Option<CpuState>, p: nat)
    requires WellFormed(s) && HighestRunnable(s, PROCESS_PRIORITY_MAX) == p
    ensures var u, t, d := Unblocked(s.rings[p], s.procs), Switch(s, regs).0, Switch(s, regs).1;
      && |u| > 0 && d.SwitchedTo? && d.id == u[0]
      && WellFormed(t) && HighestRunnable(t, PROCESS_PRIORITY_MAX) == p
      && Unblocked(t.rings[p], t.procs) == u[1..] + [u[0]]
  {
    hide Switch, Unblocked, HighestRunnable, FirstRunnable, IdsBelow;
    SwitchWellFormed(s, regs);
    var k := SwitchForm(s, regs, p);
    var ring, t := s.rings[p], Switch(s, regs).0;
    RotateUnblocked(ring, s.procs);
    UnblockedSame(Rotate(ring, k), s.procs, t.procs);
    FirstSame(Rotate(ring, k), s.procs, t.procs);
    assert Rotate(ring, k)[|ring| - 1] == ring[k];
    HighestAfterRotate(s, t, p, PROCESS_PRIORITY_MAX);
  }

  lemma SwitchForm(s: Sched, regs: Option<CpuState>, p: nat) returns (k: nat)
    requires WellFormed(s) && HighestRunnable(s, PROCESS_PRIORITY_MAX) == p
    ensures k == FirstRunnable(s.rings[p], s.procs) && k < |s.rings[p]|
    ensures Switch(s, regs).1.SwitchedTo? && Switch(s, regs).1.id == s.rings[p][k]
    ensures Switch(s, regs).0.rings == s.rings[p := Rotate(s.rings[p], k)]
    ensures SameBlocked(s.procs, Switch(s, regs).0.procs)
  {
    hide HighestRunnable, FirstRunnable, IdsBelow;
    var s1 := Save(s, regs);
    HighestSame(s, s1, PROCESS_PRIORITY_MAX);
    FirstSame(s.rings[p], s.procs, s1.procs);
    k := FirstRunnable(s.rings[p], s.procs);
  }

  lemma {:induction false} HighestSame(s: Sched, t: Sched, p: int)
    requires s.rings == t.rings && SameBlocked(s.procs, t.procs) && -1 <= p < |s.rings|
    ensures HighestRunnable(s, p) == HighestRunnable(t, p)
    decreases p + 1
  {
    if p < 0 {
    } else {
      FirstSame(s.rings[p], s.procs, t.procs);
      HighestSame(s, t, p - 1);
    }
  }

  lemma {:induction false} HighestAfterRotate(s: Sched, t: Sched, p: nat, top: nat)
    requires p <= top < |s.rings| == |t.rings| && SameBlocked(s.procs, t.procs)
    requires HighestRunnable(s, top) == p
    requires forall q :: p < q <= top ==> s.rings[q] == t.rings[q]
    requires FirstRunnable(t.rings[p], t.procs) < |t.rings[p]|
    ensures HighestRunnable(t, top) == p
  {
    if top == p {
    } else {
      FirstSame(s.rings[top], s.procs, t.procs);
      HighestAfterRotate(s, t, p, top - 1);
    }
  }

  lemma {:induction false} FirstSame(ring: seq<nat>, a: seq<Pcb>, b: seq<Pcb>)
    requires SameBlocked(a, b)
    ensures FirstRunnable(ring, a) == FirstRunnable(ring, b)
  {
    if ring == [] {
    } else {
      FirstSame(ring[1..], a, b);
    }
  }

  lemma {:induction false} UnblockedSame(ring: seq<nat>, a: seq<Pcb>, b: seq<Pcb>)
    requires SameBlocked(a, b)
    ensures Unblocked(ring, a) == Unblocked(ring, b)
  {
    if ring == [] {
    } else {
      UnblockedSame(ring[1..], a, b);
    }
  }

  lemma {:induction false} UnblockedConcat(a: seq<nat>, b: seq<nat>, procs: seq<Pcb>)
    ensures Unblocked(a + b, procs) == Unblocked(a, procs) + Unblocked(b, procs)
  {
    if a == [] {
      assert a + b == b;
    } else {
      UnblockedConcat(a[1..], b, procs);
      UnblockedCons(a[0], a[1..] + b, procs);
      UnblockedCons(a[0], a[1..], procs);
      hide Unblocked;
      assert a + b == [a[0]] + (a[1..] + b) && a == [a[0]] + a[1..];
    }
  }

  lemma {:induction false} UnblockedCons(id: nat, ring: seq<nat>, procs: seq<Pcb>)
    ensures Unblocked([id] + ring, procs) == (if Runnable(procs, id) then [id] else []) + Unblocked(ring, procs)
  {
    assert ([id] + ring)[1..] == ring;
  }

  lemma {:induction false} UnblockedSplit(ring: seq<nat>, procs: seq<Pcb>)
    ensures var k := FirstRunnable(ring, procs);
      && (k == |ring| ==> Unblocked(ring, procs) == [])
      && (k < |ring| ==>
            && Unblocked(ring, procs) == [ring[k]] + Unblocked(ring[k + 1..], procs)
            && Unblocked(ring[..k + 1], procs) == [ring[k]])
  {
    if ring == [] {
    } else {
      var k := FirstRunnable(ring, procs);
      if k > 0 {
        UnblockedSplit(ring[1..], procs);
        if k < |ring| {
          assert ring[1..][k..] == ring[k + 1..];
          assert ring[..k + 1][1..] == ring[1..][..k];
        }
      } else {
        assert ring[..1][1..] == [];
      }
    }
  }

  /** Turning the ring to its first unblocked member turns the sequence of unblocked members by
      one place. */
  lemma RotateUnblocked(ring: seq<nat>, procs: seq<Pcb>)
    ensures var k := FirstRunnable(ring, procs);
      k < |ring| ==>
        && var u := Unblocked(ring, procs);
        && |u| > 0 && u[0] == ring[k]
        && Unblocked(Rotate(ring, k), procs) == u[1..] + [u[0]]
  {
    var k := FirstRunnable(ring, procs);
    UnblockedSplit(ring, procs);
    if k < |ring| {
      UnblockedConcat(ring[k + 1..], ring[..k + 1], procs);
    }
  }

  /** The processes dispatched, in order. */
  function Ids(ds: seq<Dispatch>): (ids: seq<nat>)
    requires forall k :: 0 <= k < |ds| ==> ds[k].SwitchedTo?
    ensures |ids| == |ds| && forall k :: 0 <= k < |ds| ==> ids[k] == ds[k].id
  {
    if ds == [] then [] else [ds[0].id] + Ids(ds[1..])
  }

  /** Any m consecutive switches, m being the number of unblocked processes, dispatch each of
      them exactly once, and the schedule repeats with period m. */
  lemma EveryWindowIsFair(s: Sched, regs: seq<Option<CpuState>>, p: nat, j: nat)
    requires WellFormed(s) && HighestRunnable(s, PROCESS_PRIORITY_MAX) == p
    requires j + |Unblocked(s.rings[p], s.procs)| <= |regs|
    ensures |Unblocked(s.rings[p], s.procs)| > 0
    ensures forall k :: 0 <= k < |regs| ==> Turns(s, regs)[k].SwitchedTo?
    ensures var u := Unblocked(s.rings[p], s.procs);
            multiset(Ids(Turns(s, regs)[j..j + |u|])) == multiset(u)
    ensures var u, ds := Unblocked(s.rings[p], s.procs), Turns(s, regs);
            j + |u| < |regs| ==> ds[j].id == ds[j + |u|].id
  {
    hide Switch, Unblocked, Turns, Cycle;
    RoundRobin(s, regs, p);
    var u, ds := Unblocked(s.rings[p], s.procs), Turns(s, regs);
    CycleWindow(u, j);
    var m, window := |u|, Ids(ds[j..j + |u|]);
    forall i | 0 <= i < m
      ensures window[i] == Cycle(u, j + i)
    {
      assert window[i] == ds[j + i].id;
    }
    assert window == seq(m, i requires 0 <= i < m => Cycle(u, j + i));
  }

  /** One period of the repetition, started anywhere, is a rotation. */
  lemma CycleWindow(u: seq<nat>, j: nat)
    requires |u| > 0
    ensures multiset(seq(|u|, i requires 0 <= i < |u| => Cycle(u, j + i))) == multiset(u)
    ensures Cycle(u, j) == Cycle(u, j + |u|)
  {
    hide Cycle;
    var r := j % |u|;
    var window := seq(|u|, i requires 0 <= i < |u| => Cycle(u, j + i));
    forall i | 0 <= i < |u|
      ensures window[i] == (u[r..] + u[..r])[i]
    {
      CycleAt(u, j, i);
    }
    assert window == u[r..] + u[..r];
    assert u == u[..r] + u[r..];
    CyclePeriod(u, j);
  }

  lemma CycleAt(u: seq<nat>, j: nat, i: nat)
    requires i < |u|
    ensures Cycle(u, j + i) == (u[j % |u|..] + u[..j % |u|])[i]
  {
    WindowIndex(j, i, |u|);
  }

  lemma CyclePeriod(u: seq<nat>, j: nat)
    requires |u| > 0
    ensures Cycle(u, j) == Cycle(u, j + |u|)
  {
    var m := |u|;
    assert (j / m + 1) * m == (j / m) * m + m;
    DivModUnique(j + m, m, j / m + 1, j % m);
  }

  lemma WindowIndex(j: nat, i: nat, m: nat)
    requires i < m
    ensures (j + i) % m == if i < m - j % m then j % m + i else i - (m - j % m)
  {
    var q, r := j / m, j % m;
    if i < m - r {
      DivModUnique(j + i, m, q, r + i);
    } else {
      assert (q + 1) * m == q * m + m;
      DivModUnique(j + i, m, q + 1, i - (m - r));
    }
  }

  ghost predicate RunsThrough(ds: seq<Dispatch>, ids: seq<nat>) {
    |ids| <= |ds| && forall k :: 0 <= k < |ids| ==> ds[k].SwitchedTo? && ds[k].id == ids[k]
  }

  /** Process `id` is the k-th in turn. */
  predicate InTurn(u: seq<nat>, k: nat, id: nat) {
    k < |u| && u[k] == id && forall j :: 0 <= j < k ==> u[j] != id
  }

  lemma NextInTurn(u: seq<nat>, k: nat, id: nat)
    requires InTurn(u, k, id)
    ensures k == 0 ==> u[0] == id
    ensures k > 0 ==> u[0] != id && InTurn(u[1..] + [u[0]], k - 1, id)
  {
  }

  /** A process that waits for its turn and is not current is dispatched, at that turn, with exactly
      the registers that are saved for it now. */
  lemma {:induction false} WaitingKeepsContext(s: Sched, regs: seq<Option<CpuState>>, p: nat, k: nat, id: nat)
    requires WellFormed(s) && HighestRunnable(s, PROCESS_PRIORITY_MAX) == p
    requires InTurn(Unblocked(s.rings[p], s.procs), k, id) && k < |regs|
    requires id < |s.procs| && s.current != Some(id)
    ensures Turns(s, regs)[k] == SwitchedTo(id, s.procs[id].pageDir, s.procs[id].state)
    decreases k
  {
    hide Switch, Unblocked, HighestRunnable, IdsBelow, Turns, InTurn;
    var u, t := Unblocked(s.rings[p], s.procs), Switch(s, regs[0]).0;
    OneTurn(s, regs[0], p);
    SwitchLoads(s, regs[0], id);
    TurnsFrom(s, regs, k);
    NextInTurn(u, k, id);
    if k == 0 {
    } else {
      WaitingKeepsContext(t, regs[1..], p, k - 1, id);
    }
  }

  lemma TurnsFrom(s: Sched, regs: seq<Option<CpuState>>, k: nat)
    requires k < |regs|
    ensures Turns(s, regs)[0] == Switch(s, regs[0]).1
    ensures k > 0 ==> Turns(s, regs)[k] == Turns(Switch(s, regs[0]).0, regs[1..])[k - 1]
  {
    hide Switch;
  }

  /** What one switch does to a process that is not current. */
  lemma SwitchLoads(s: Sched, regs: Option<CpuState>, id: nat)
    requires WellFormed(s) && id < |s.procs| && s.current != Some(id)
    ensures var t, d := Switch(s, regs).0, Switch(s, regs).1;
            && |t.procs| == |s.procs| && t.procs[id] == s.procs[id]
            && (d.SwitchedTo? ==>
                  && t.current == Some(d.id)
                  && (d.id == id ==> d.pageDir == s.procs[id].pageDir && d.loaded == s.procs[id].state))
  {
    hide HighestRunnable, FirstRunnable;
  }

  /** A newly spawned process waits for exactly one turn of every other unblocked process of its
      ring: they go first, in ring order, and then it is dispatched. It starts with its own start
      state, unless its queue was empty: then it is current when the next switch saves registers,
      and starts with those of whatever ran before. */
  lemma NewcomerWaitsOneRound(s: Sched, pageDir: nat, p: nat, state: CpuState, regs: seq<Option<CpuState>>)
    requires WellFormed(s) && p <= PROCESS_PRIORITY_MAX
    requires HighestRunnable(Spawn(s, pageDir, p, state), PROCESS_PRIORITY_MAX) == p
    requires |regs| > |Unblocked(s.rings[p], s.procs)|
    ensures RunsThrough(Turns(Spawn(s, pageDir, p, state), regs), Unblocked(s.rings[p], s.procs) + [|s.procs|])
    ensures |s.procs| !in Unblocked(s.rings[p], s.procs)
    ensures var d := Turns(Spawn(s, pageDir, p, state), regs)[|Unblocked(s.rings[p], s.procs)|];
            && d.SwitchedTo?
            && d.loaded == (if s.rings[p] == [] && regs[0].Some? then regs[0].value else state)
            && (d.loaded == state <==> s.rings[p] != [] || regs[0].None? || regs[0].value == state)
  {
    hide Switch, HighestRunnable, Unblocked, Cycle, Turns, Spawn;
    SpawnWellFormed(s, pageDir, p, state);
    var t, u, n := Spawn(s, pageDir, p, state), Unblocked(s.rings[p], s.procs), |s.procs|;
    SpawnUnblocked(s, pageDir, p, state);
    RoundRobin(t, regs, p);
    NewcomerLoads(s, pageDir, p, state, regs);
    forall k | 0 <= k <= |u|
      ensures Cycle(u + [n], k) == (u + [n])[k]
    {
      CycleSmall(u + [n], k);
    }
  }

  lemma CycleSmall(u: seq<nat>, k: nat)
    requires k < |u|
    ensures Cycle(u, k) == u[k]
  {
    DivModUnique(k, |u|, 0, k);
  }

  lemma NewcomerLoads(s: Sched, pageDir: nat, p: nat, state: CpuState, regs: seq<Option<CpuState>>)
    requires WellFormed(s) && p <= PROCESS_PRIORITY_MAX
    requires HighestRunnable(Spawn(s, pageDir, p, state), PROCESS_PRIORITY_MAX) == p
    requires |regs| > |Unblocked(s.rings[p], s.procs)|
    ensures Turns(Spawn(s, pageDir, p, state), regs)[|Unblocked(s.rings[p], s.procs)|]
         == SwitchedTo(|s.procs|, pageDir, if s.rings[p] == [] && regs[0].Some? then regs[0].value else state)
  {
    hide Switch, HighestRunnable;
    SpawnWellFormed(s, pageDir, p, state);
    SpawnUnblocked(s, pageDir, p, state);
    if s.rings[p] == [] {
      SpawnedIsInterrupted(s, pageDir, p, state, regs[0]);
    } else {
      WaitingKeepsContext(Spawn(s, pageDir, p, state), regs, p, |Unblocked(s.rings[p], s.procs)|, |s.procs|);
    }
  }

  lemma SpawnWellFormed(s: Sched, pageDir: nat, p: nat, state: CpuState)
    requires WellFormed(s) && p <= PROCESS_PRIORITY_MAX
    ensures WellFormed(Spawn(s, pageDir, p, state))
  {
  }

  lemma SpawnUnblocked(s: Sched, pageDir: nat, p: nat, state: CpuState)
    requires WellFormed(s) && p <= PROCESS_PRIORITY_MAX
    ensures var t, u := Spawn(s, pageDir, p, state), Unblocked(s.rings[p], s.procs);
            Unblocked(t.rings[p], t.procs) == u + [|s.procs|] && |s.procs| !in u
  {
    var t := Spawn(s, pageDir, p, state);
    UnblockedConcat(s.rings[p], [|s.procs|], t.procs);
    UnblockedExtend(s.rings[p], s.procs, t.procs);
  }

  /** The first process of a queue becomes current when it is spawned, so a switch that then selects
      it has put the registers of the interrupted code in the place of its entry point and stack. */
  lemma SpawnedIsInterrupted(s: Sched, pageDir: nat, p: nat, state: CpuState, regs: Option<CpuState>)
    requires WellFormed(s) && p <= PROCESS_PRIORITY_MAX && s.rings[p] == []
    requires HighestRunnable(Spawn(s, pageDir, p, state), PROCESS_PRIORITY_MAX) == p
    ensures Switch(Spawn(s, pageDir, p, state), regs).1
         == SwitchedTo(|s.procs|, pageDir, if regs.Some? then regs.value else state)
  {
    hide HighestRunnable;
    var t := Spawn(s, pageDir, p, state);
    var t1 := Save(t, regs);
    HighestSame(t, t1, PROCESS_PRIORITY_MAX);
    assert t.rings[p] == [|s.procs|];
  }

  lemma {:induction false} UnblockedExtend(ring: seq<nat>, a: seq<Pcb>, b: seq<Pcb>)
    requires a <= b && forall k :: 0 <= k < |ring| ==> ring[k] < |a|
    ensures Unblocked(ring, a) == Unblocked(ring, b)
    ensures forall id :: id in Unblocked(ring, a) ==> id < |a|
  {
    if ring == [] {
    } else {
      UnblockedExtend(ring[1..], a, b);
    }
  }

  // ---------- Whole runs ----------

  datatype Event =
    | Spawning(entryPoint: nat, pageDir: nat, priority: nat, stackTop: nat, flags: nat)
    | Switching(regs: Option<CpuState>)
    | Blocking(id: nat, blocked: bool)

  function Step(s: Sched, e: Event): Sched {
    match e
    case Spawning(entryPoint, pageDir, priority, stackTop, flags) =>
      if priority < |s.rings|
      then Spawn(s, pageDir, priority, SpawnState(entryPoint, stackTop, flags)) else s
    case Switching(regs) => Switch(s, regs).0
    case Blocking(id, blocked) => if id < |s.procs| then SetBlocked(s, id, blocked) else s
  }

  lemma StepWellFormed(s: Sched, e: Event)
    requires WellFormed(s)
    ensures WellFormed(Step(s, e))
  {
    if e.Switching? {
      SwitchWellFormed(s, e.regs);
    }
  }

  /** The state after a run, from an empty scheduler. */
  function Run(es: seq<Event>): Sched {
    if es == [] then Empty() else Step(Run(es[..|es| - 1]), es[|es| - 1])
  }

  lemma {:induction false} RunWellFormed(es: seq<Event>)
    ensures WellFormed(Run(es))
  {
    if es == [] {
    } else {
      RunWellFormed(es[..|es| - 1]);
      StepWellFormed(Run(es[..|es| - 1]), es[|es| - 1]);
    }
  }

  /** The priorities of the processes spawned by a run, in order of their ids. */
  function Spawned(es: seq<Event>): seq<nat> {
    if es == [] then []
    else
      var e, before := es[|es| - 1], Spawned(es[..|es| - 1]);
      if e.Spawning? && e.priority <= PROCESS_PRIORITY_MAX then before + [e.priority] else before
  }

  ghost predicate NoDuplicates(ring: seq<nat>) {
    forall j, k :: 0 <= j < k < |ring| ==> ring[j] != ring[k]
  }

  ghost predicate Partitioned(rings: seq<seq<nat>>, spawned: seq<nat>) {
    forall p :: 0 <= p < |rings| ==>
      && NoDuplicates(rings[p])
      && forall id: nat :: id in rings[p] <==> id < |spawned| && spawned[id] == p
  }

  /** Ring invariant: whatever happens, queue p holds exactly the processes spawned at priority
      p, each once; so no process is ever in two queues. */
  lemma {:induction false} RingsPartitionProcesses(es: seq<Event>)
    ensures |Run(es).procs| == |Spawned(es)|
    ensures Partitioned(Run(es).rings, Spawned(es))
  {
    if es == [] {
    } else {
      hide Partitioned, Step, WellFormed;
      var before, e := es[..|es| - 1], es[|es| - 1];
      RingsPartitionProcesses(before);
      RunWellFormed(before);
      StepPartition(Run(before), e, Spawned(before));
    }
  }

  lemma StepPartition(s: Sched, e: Event, spawned: seq<nat>)
    requires WellFormed(s) && |s.procs| == |spawned| && Partitioned(s.rings, spawned)
    ensures var spawning := e.Spawning? && e.priority <= PROCESS_PRIORITY_MAX;
            var spawned' := if spawning then spawned + [e.priority] else spawned;
            |Step(s, e).procs| == |spawned'| && Partitioned(Step(s, e).rings, spawned')
  {
    hide Partitioned, SpawnState, HighestRunnable, FirstRunnable, Rotate, IdsBelow;
    match e
    case Spawning(_, _, priority, _, _) =>
      if priority <= PROCESS_PRIORITY_MAX {
        SpawnPartition(s.rings, spawned, priority);
      }
    case Switching(regs) =>
      var s1 := Save(s, regs);
      var p := HighestRunnable(s1, PROCESS_PRIORITY_MAX);
      if p >= 0 {
        RotatePartition(s.rings, spawned, p, FirstRunnable(s1.rings[p], s1.procs));
      }
    case Blocking(_, _) =>
  }

  lemma SpawnPartition(rings: seq<seq<nat>>, spawned: seq<nat>, p: nat)
    requires Partitioned(rings, spawned) && p < |rings|
    ensures Partitioned(rings[p := rings[p] + [|spawned|]], spawned + [p])
  {
    var rings' := rings[p := rings[p] + [|spawned|]];
    forall q | 0 <= q < |rings'|
      ensures NoDuplicates(rings'[q])
      ensures forall id: nat :: id in rings'[q] <==> id < |spawned| + 1 && (spawned + [p])[id] == q
    {
      assert |spawned| !in rings[q];
      if q == p {
        assert forall id: nat :: id in rings'[p] <==> id in rings[p] || id == |spawned|;
      }
    }
  }

  lemma RotatePartition(rings: seq<seq<nat>>, spawned: seq<nat>, p: nat, k: nat)
    requires Partitioned(rings, spawned) && p < |rings| && k < |rings[p]|
    ensures Partitioned(rings[p := Rotate(rings[p], k)], spawned)
  {
    var ring := rings[p];
    assert ring == ring[..k + 1] + ring[k + 1..];
    assert forall id :: id in Rotate(ring, k) <==> id in ring;
  }

  // ---------- Saved registers ----------

  /** The registers last recorded for process x by a run: those passed to the last switch that
      happened while x was current, or, failing that, the ones x was spawned with. */
  ghost function LastRecorded(es: seq<Event>, x: nat): Option<CpuState> {
    if es == [] then None
    else
      var before, e := es[..|es| - 1], es[|es| - 1];
      match e
      case Spawning(entryPoint, _, priority, stackTop, flags) =>
        if priority <= PROCESS_PRIORITY_MAX && |Spawned(before)| == x
        then Some(SpawnState(entryPoint, stackTop, flags)) else LastRecorded(before, x)
      case Switching(regs) =>
        if regs.Some? && Run(before).current == Some(x) then regs else LastRecorded(before, x)
      case Blocking(_, _) => LastRecorded(before, x)
  }

  lemma StepSaves(s: Sched, e: Event, x: nat)
    requires WellFormed(s)
    ensures |Step(s, e).procs| == |s.procs| + if e.Spawning? && e.priority <= PROCESS_PRIORITY_MAX then 1 else 0
    ensures x < |s.procs| ==>
              Step(s, e).procs[x].state ==
                (if e.Switching? && e.regs.Some? && s.current == Some(x) then e.regs.value else s.procs[x].state)
    ensures x == |s.procs| < |Step(s, e).procs| ==>
              && Step(s, e).procs[x].state == SpawnState(e.entryPoint, e.stackTop, e.flags)
              && Step(s, e).procs[x].pageDir == e.pageDir && !Step(s, e).procs[x].blocked
    ensures x < |s.procs| ==>
              && Step(s, e).procs[x].pageDir == s.procs[x].pageDir
              && Step(s, e).procs[x].blocked == if e.Blocking? && e.id == x then e.blocked else s.procs[x].blocked
  {
    hide SpawnState, HighestRunnable, FirstRunnable;
  }

  /** A process's saved registers are always the last ones saved while it was current. Whether those
      are its own is a matter of spawns into empty queues (see SchedulerContext). */
  lemma {:induction false} ContextPreserved(es: seq<Event>, x: nat)
    requires x < |Run(es).procs|
    ensures LastRecorded(es, x) == Some(Run(es).procs[x].state)
  {
    hide Step, SpawnState, WellFormed;
    var before, e := es[..|es| - 1], es[|es| - 1];
    RingsPartitionProcesses(before);
    RunWellFormed(before);
    StepSaves(Run(before), e, x);
    if x < |Run(before).procs| {
      ContextPreserved(before, x);
    }
  }

  /** What a dispatch loads is what was last recorded for the chosen process, counting the
      registers that this very switch recorded for the process it interrupted. */
  lemma DispatchRestoresContext(es: seq<Event>, regs: Option<CpuState>)
    ensures var d := Switch(Run(es), regs).1;
      d.SwitchedTo? ==>
        && d.id < |Run(es).procs|
        && Some(d.loaded) == (if regs.Some? && Run(es).current == Some(d.id) then regs else LastRecorded(es, d.id))
  {
    var s := Run(es);
    RunWellFormed(es);
    var d := Switch(s, regs).1;
    if d.SwitchedTo? {
      SwitchSelects(s, regs);
      ContextPreserved(es, d.id);
    }
  }

  // ---------- Blocking ----------

  /** Whether process x was blocked last, or unblocked, if it was either. */
  predicate LastBlocked(es: seq<Event>, x: nat) {
    if es == [] then false
    else
      var before, e := es[..|es| - 1], es[|es| - 1];
      if e.Blocking? && e.id == x && x < |Spawned(before)| then e.blocked else LastBlocked(before, x)
  }

  lemma {:induction false} BlockedAsAsked(es: seq<Event>, x: nat)
    requires x < |Run(es).procs|
    ensures Run(es).procs[x].blocked <==> LastBlocked(es, x)
  {
    hide Step, SpawnState, WellFormed;
    var before, e := es[..|es| - 1], es[|es| - 1];
    RingsPartitionProcesses(before);
    RunWellFormed(before);
    StepSaves(Run(before), e, x);
    if x < |Run(before).procs| {
      BlockedAsAsked(before, x);
    } else {
      NotBlockedBefore(before, x);
    }
  }

  lemma {:induction false} NotBlockedBefore(es: seq<Event>, x: nat)
    requires x >= |Spawned(es)|
    ensures !LastBlocked(es, x)
  {
    if es == [] {
    } else {
      NotBlockedBefore(es[..|es| - 1], x);
    }
  }

  /** A dispatch never goes to a process that was blocked and not unblocked since, and it comes back
      without one exactly if all were. */
  lemma DispatchSkipsBlocked(es: seq<Event>, regs: Option<CpuState>)
    ensures var d := Switch(Run(es), regs).1;
            && (d.SwitchedTo? ==> d.id < |Spawned(es)| && !LastBlocked(es, d.id))
            && (d.Returned? <==> forall x: nat :: x < |Spawned(es)| ==> LastBlocked(es, x))
  {
    hide Run, LastBlocked, Switch;
    var s, d := Run(es), Switch(Run(es), regs).1;
    RunWellFormed(es);
    RingsPartitionProcesses(es);
    SwitchSelects(s, regs);
    forall x: nat | x < |s.procs|
      ensures s.procs[x].blocked <==> LastBlocked(es, x)
    {
      BlockedAsAsked(es, x);
    }
    if AllBlocked(s) {
      forall x: nat | x < |Spawned(es)|
        ensures s.procs[x].blocked
      {
        InItsRing(es, x);
      }
    }
  }

  lemma InItsRing(es: seq<Event>, x: nat)
    requires x < |Spawned(es)|
    ensures Spawned(es)[x] < |Run(es).rings| && x in Run(es).rings[Spawned(es)[x]]
  {
    RingsPartitionProcesses(es);
    RunWellFormed(es);
    SpawnedInRange(es, x);
  }

  lemma {:induction false} SpawnedInRange(es: seq<Event>, x: nat)
    requires x < |Spawned(es)|
    ensures Spawned(es)[x] <= PROCESS_PRIORITY_MAX
  {
    if x < |Spawned(es[..|es| - 1])| {
      SpawnedInRange(es[..|es| - 1], x);
    }
  }

  // ---------- The first dispatch ----------

  /** The spawn that made process x. */
  function SpawnOf(es: seq<Event>, x: nat): (r: Option<Event>)
    ensures r.Some? ==> r.value.Spawning?
  {
    if es == [] then None
    else
      var before, e := es[..|es| - 1], es[|es| - 1];
      if e.Spawning? && e.priority <= PROCESS_PRIORITY_MAX && |Spawned(before)| == x then Some(e) else SpawnOf(before, x)
  }

  /** No switch of the run has saved registers for process x. */
  predicate NeverSaved(es: seq<Event>, x: nat) {
    if es == [] then true
    else
      var before, e := es[..|es| - 1], es[|es| - 1];
      NeverSaved(before, x) && !(e.Switching? && e.regs.Some? && Run(before).current == Some(x))
  }

  lemma {:induction false} KeptFromSpawn(es: seq<Event>, x: nat)
    requires x < |Run(es).procs|
    ensures SpawnOf(es, x).Some? && Run(es).procs[x].pageDir == SpawnOf(es, x).value.pageDir
    ensures NeverSaved(es, x) ==>
              var e := SpawnOf(es, x).value;
              Run(es).procs[x].state == SpawnState(e.entryPoint, e.stackTop, e.flags)
  {
    hide Step, SpawnState, WellFormed;
    var before, e := es[..|es| - 1], es[|es| - 1];
    RingsPartitionProcesses(before);
    RunWellFormed(before);
    StepSaves(Run(before), e, x);
    if x < |Run(before).procs| {
      KeptFromSpawn(before, x);
    }
  }

  /** The first dispatch of a process that no switch has saved for starts it: at the entry point and on
      the stack it was spawned with, in its page directory. */
  lemma FirstDispatchStarts(es: seq<Event>, regs: Option<CpuState>)
    ensures var d := Switch(Run(es), regs).1;
            d.SwitchedTo? ==>
              && SpawnOf(es, d.id).Some? && d.pageDir == SpawnOf(es, d.id).value.pageDir
              && (NeverSaved(es + [Switching(regs)], d.id) ==>
                    StartsAt(d.loaded, SpawnOf(es, d.id).value.entryPoint, SpawnOf(es, d.id).value.stackTop))
  {
    hide SpawnState, StartsAt, Run;
    var s, d, fs := Run(es), Switch(Run(es), regs).1, es + [Switching(regs)];
    RunWellFormed(es);
    if d.SwitchedTo? {
      SwitchSelects(s, regs);
      DispatchLoads(s, regs);
      KeptFromSpawn(es, d.id);
      var e := SpawnOf(es, d.id).value;
      SpawnStarts(e.entryPoint, e.stackTop, e.flags);
      assert fs[..|fs| - 1] == es;
    }
  }

  /** What a dispatch loads for the process chosen. */
  lemma DispatchLoads(s: Sched, regs: Option<CpuState>)
    requires WellFormed(s)
    ensures var d := Switch(s, regs).1;
            d.SwitchedTo? ==>
              && d.id < |s.procs| && d.pageDir == s.procs[d.id].pageDir
              && d.loaded == if regs.Some? && s.current == Some(d.id) then regs.value else s.procs[d.id].state
  {
    hide HighestRunnable, FirstRunnable;
  }

  /** The current process is the one dispatched last, except that a spawn into an empty queue
      also makes its process current. */
  lemma CurrentIsLastDispatched(es: seq<Event>, e: Event)
    ensures var s, t := Run(es), Step(Run(es), e);
      t.current != s.current ==>
        || (e.Switching? && Switch(s, e.regs).1.SwitchedTo? && t.current == Some(Switch(s, e.regs).1.id))
        || (e.Spawning? && e.priority <= PROCESS_PRIORITY_MAX && t.current == Some(|Spawned(es)|) && e.priority !in Spawned(es))
  {
    RingsPartitionProcesses(es);
    RunWellFormed(es);
    var s := Run(es);
    if e.Spawning? && e.priority <= PROCESS_PRIORITY_MAX && s.rings[e.priority] == [] {
      forall id | 0 <= id < |Spawned(es)|
        ensures Spawned(es)[id] != e.priority
      {
        assert id !in s.rings[e.priority];
      }
    }
  }

  // ---------- Privilege flags ----------

  /** PROCESS_FLAGS_SUPERVISOR is 0, so the flag test always succeeds: every process starts with
      the kernel selectors. The selectors match the request exactly when the process was not
      asked to run in user mode. */
  lemma SelectorsIgnoreUserFlag(entryPoint: nat, stackTop: nat, flags: nat)
    ensures SpawnState(entryPoint, stackTop, flags).cs == 0x08
    ensures (SpawnState(entryPoint, stackTop, flags).cs == if TestFlag(flags, PROCESS_FLAGS_USER) then 0x1B else 0x08)
       <==> !TestFlag(flags, PROCESS_FLAGS_USER)
  {
    assert And(flags, 0) == 0;
  }
}
