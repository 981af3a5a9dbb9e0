/** Whole runs of the timer queue: a run is the sequence of elapsed times that process_timer_queue
    is called with (src/kernel/timer.c:69-92). */
module TimerRuns {
  import opened Wrappers
  import opened Bits
  import opened KHash
  import opened Timer

  // ---------- One event ----------

  /** The event after a run. */
  function After(e: Event, ts: seq<nat>): Event {
    if ts == [] then e else Tick(After(e, ts[..|ts| - 1]), ts[|ts| - 1])
  }

  function Firings(e: Event, ts: seq<nat>): nat {
    if ts == [] then 0
    else Firings(e, ts[..|ts| - 1]) + if Fires(After(e, ts[..|ts| - 1]), ts[|ts| - 1]) then 1 else 0
  }

  /** A firing: the time since the one before, and the step that brought it about. */
  datatype Span = Span(time: nat, step: nat)

  function Spans(e: Event, ts: seq<nat>): seq<Span> {
    if ts == [] then []
    else
      var before, t := After(e, ts[..|ts| - 1]), ts[|ts| - 1];
      Spans(e, ts[..|ts| - 1]) + if Fires(before, t) then [Span(before.elapsed + t, t)] else []
  }

  function Sum(ts: seq<nat>): nat {
    if ts == [] then 0 else Sum(ts[..|ts| - 1]) + ts[|ts| - 1]
  }

  function TimeOf(spans: seq<Span>): nat {
    if spans == [] then 0 else TimeOf(spans[..|spans| - 1]) + spans[|spans| - 1].time
  }

  /** The time kept for an event stays below its period, whatever the steps. */
  lemma {:induction false} ElapsedStaysBelow(e: Event, ts: seq<nat>)
    requires e.elapsed < e.period
    ensures After(e, ts).elapsed < e.period && After(e, ts).period == e.period
  {
    if ts == [] {
    } else {
      ElapsedStaysBelow(e, ts[..|ts| - 1]);
    }
  }

  /** The sum is a 32-bit number: an event that is due is raised exactly if the sum does not wrap. */
  lemma RaisedWhenDue(e: Event, t: nat)
    requires e.elapsed < e.period < U32 && t < U32
    ensures (Fires(e, t) <==> e.elapsed + t >= e.period) <==> e.elapsed + t < U32
  {
    var sum := e.elapsed + t;
    if sum >= U32 {
      DivModUnique(sum, U32, 1, sum - U32);
    } else {
      DivModUnique(sum, U32, 0, sum);
    }
  }

  lemma Exact(e: Event, t: nat)
    requires e.elapsed < e.period && t + e.period <= U32
    ensures Fires(e, t) <==> e.elapsed + t >= e.period
    ensures !Fires(e, t) ==> Tick(e, t).elapsed == e.elapsed + t
  {
    DivModUnique(e.elapsed + t, U32, 0, e.elapsed + t);
  }

  /** No time is lost between firings: every firing stands for the time since the one before, which
      is the period and less than one step more. */
  lemma {:induction false} TimeIsConserved(e: Event, ts: seq<nat>)
    requires e.elapsed < e.period
    requires forall k :: 0 <= k < |ts| ==> ts[k] + e.period <= U32
    ensures |Spans(e, ts)| == Firings(e, ts)
    ensures e.elapsed + Sum(ts) == TimeOf(Spans(e, ts)) + After(e, ts).elapsed
    ensures forall s :: s in Spans(e, ts) ==> e.period <= s.time < e.period + s.step
  {
    hide Fires, Tick;
    if ts == [] {
    } else {
      var init, t := ts[..|ts| - 1], ts[|ts| - 1];
      TimeIsConserved(e, init);
      ElapsedStaysBelow(e, init);
      var before := After(e, init);
      Exact(before, t);
      TickOf(before, t);
      var spans := Spans(e, init);
      if Fires(before, t) {
        assert (spans + [Span(before.elapsed + t, t)])[..|spans|] == spans;
      } else {
        assert spans + [] == spans;
      }
    }
  }

  lemma TickOf(e: Event, t: nat)
    ensures Fires(e, t) ==> Tick(e, t).elapsed == 0
    ensures Tick(e, t).period == e.period && Tick(e, t).callback == e.callback && Tick(e, t).arg == e.arg
  {
  }

  // ---------- A constant step ----------

  function Same(t: nat, n: nat): (ts: seq<nat>)
    ensures |ts| == n
  {
    if n == 0 then [] else Same(t, n - 1) + [t]
  }

  /** How many steps it takes to make a period; every call raises an event of period zero. */
  function Cycle(period: nat, step: nat): (c: nat)
    requires step > 0
    ensures c > 0
  {
    if period == 0 then 1 else (period - 1) / step + 1
  }

  lemma CycleTest(period: nat, step: nat, k: nat)
    requires step > 0 && k > 0
    ensures k * step >= period <==> k >= Cycle(period, step)
  {
    if period > 0 {
      var q := (period - 1) / step;
      QuotientBounds(period - 1, step, q);
      Scale(k, q, step);
      Scale(q + 1, k, step);
    } else {
      Scale(0, k, step);
    }
  }

  lemma QuotientBounds(x: nat, d: nat, q: nat)
    requires d > 0 && q == x / d
    ensures q * d <= x < (q + 1) * d
  {
    assert x == q * d + x % d;
    assert (q + 1) * d == q * d + d;
  }

  lemma Scale(a: nat, b: nat, d: nat)
    ensures a <= b ==> a * d <= b * d
  {
    if a <= b {
      assert b * d == a * d + (b - a) * d;
      assert (b - a) * d >= 0;
    }
  }

  function Part(n: nat, c: nat): nat
    requires c > 0
  {
    n % c
  }

  function Rounds(n: nat, c: nat): nat
    requires c > 0
  {
    n / c
  }

  lemma NextInCycle(n: nat, c: nat)
    requires c > 0
    ensures Part(0, c) == Rounds(0, c) == 0 && Part(n, c) < c
    ensures Part(n, c) + 1 == c ==> Part(n + 1, c) == 0 && Rounds(n + 1, c) == Rounds(n, c) + 1
    ensures Part(n, c) + 1 != c ==> Part(n + 1, c) == Part(n, c) + 1 && Rounds(n + 1, c) == Rounds(n, c)
  {
    DivModUnique(0, c, 0, 0);
    assert n == (n / c) * c + n % c;
    if n % c + 1 == c {
      assert (n / c + 1) * c == (n / c) * c + c;
      DivModUnique(n + 1, c, n / c + 1, 0);
    } else {
      DivModUnique(n + 1, c, n / c, n % c + 1);
    }
  }

  function Steps(r: nat, step: nat): nat {
    r * step
  }

  /** With a constant step an event fires once in every ceil(period / step) calls. */
  lemma ConstantStep(e: Event, step: nat, n: nat)
    requires e.elapsed == 0 && 0 < step < U32 && e.period + step <= U32
    ensures var c := Cycle(e.period, step);
            && After(e, Same(step, n)).elapsed == (n % c) * step
            && Firings(e, Same(step, n)) == n / c
  {
    hide After, Firings, Same, Cycle;
    ConstantSteps(e, step, n);
  }

  lemma {:induction false} ConstantSteps(e: Event, step: nat, n: nat)
    requires e.elapsed == 0 && 0 < step < U32 && e.period + step <= U32
    ensures var c := Cycle(e.period, step);
            && After(e, Same(step, n)).elapsed == Steps(Part(n, c), step)
            && After(e, Same(step, n)).period == e.period
            && Firings(e, Same(step, n)) == Rounds(n, c)
  {
    hide Fires, Tick, Cycle, Part, Rounds, Steps, After, Firings, Same;
    var c := Cycle(e.period, step);
    OneMore(e, step, n);
    NoSteps(step);
    if n == 0 {
      NextInCycle(0, c);
    } else {
      var before := After(e, Same(step, n - 1));
      ConstantSteps(e, step, n - 1);
      TickOf(before, step);
      NextInCycle(n - 1, c);
      StepFires(before, step, Part(n - 1, c), c);
    }
  }

  lemma OneMore(e: Event, step: nat, n: nat)
    ensures n == 0 ==> After(e, Same(step, n)) == e && Firings(e, Same(step, n)) == 0
    ensures n > 0 ==> var before := After(e, Same(step, n - 1));
                      && After(e, Same(step, n)) == Tick(before, step)
                      && Firings(e, Same(step, n)) ==
                           Firings(e, Same(step, n - 1)) + if Fires(before, step) then 1 else 0
  {
    hide Fires, Tick;
    if n > 0 {
      assert Same(step, n)[..n - 1] == Same(step, n - 1);
    }
  }

  lemma NoSteps(step: nat)
    ensures Steps(0, step) == 0
  {
  }

  /** Below the last step of a cycle an event keeps the time; at the last step it fires. */
  lemma StepFires(e: Event, step: nat, r: nat, c: nat)
    requires 0 < step < U32 && e.period + step <= U32 && c == Cycle(e.period, step) && r < c && e.elapsed == Steps(r, step)
    ensures Fires(e, step) <==> r + 1 == c
    ensures r + 1 != c ==> Tick(e, step).elapsed == Steps(r + 1, step)
  {
    assert (r + 1) * step == r * step + step;
    CycleTest(e.period, step, r + 1);
    if r > 0 {
      CycleTest(e.period, step, r);
    }
    DivModUnique(e.elapsed + step, U32, 0, e.elapsed + step);
  }

  // ---------- The whole queue ----------

  function QueueAfter(es: seq<Event>, ts: seq<nat>): (r: seq<Event>)
    ensures |r| == |es|
  {
    if ts == [] then es else Ticked(QueueAfter(es, ts[..|ts| - 1]), ts[|ts| - 1])
  }

  /** The callbacks called in a run, in order. */
  function Log(es: seq<Event>, ts: seq<nat>): seq<Firing> {
    if ts == [] then [] else Log(es, ts[..|ts| - 1]) + Raised(QueueAfter(es, ts[..|ts| - 1]), |es|, ts[|ts| - 1])
  }

  lemma RunStep(es: seq<Event>, ts: seq<nat>, k: nat, called: seq<Firing>)
    requires k < |ts|
    ensures QueueAfter(es, ts[..k + 1]) == Ticked(QueueAfter(es, ts[..k]), ts[k])
    ensures called + Log(es, ts[..k + 1]) == called + Log(es, ts[..k]) + Raised(QueueAfter(es, ts[..k]), |es|, ts[k])
  {
    LogStep(es, ts, k);
    hide Ticked, Raised, QueueAfter, Log;
    Associate(called, Log(es, ts[..k]), Raised(QueueAfter(es, ts[..k]), |es|, ts[k]));
  }

  lemma LogStep(es: seq<Event>, ts: seq<nat>, k: nat)
    requires k < |ts|
    ensures QueueAfter(es, ts[..k + 1]) == Ticked(QueueAfter(es, ts[..k]), ts[k])
    ensures Log(es, ts[..k + 1]) == Log(es, ts[..k]) + Raised(QueueAfter(es, ts[..k]), |es|, ts[k])
  {
    hide Ticked, Raised;
    var upTo := ts[..k + 1];
    assert upTo[..|upTo| - 1] == ts[..k] && upTo[|upTo| - 1] == ts[k];
  }

  lemma Associate(a: seq<Firing>, b: seq<Firing>, c: seq<Firing>)
    ensures a + (b + c) == a + b + c
  {
  }

  lemma RunStart(es: seq<Event>, called: seq<Firing>)
    ensures QueueAfter(es, []) == es && called + Log(es, []) == called
  {
  }

  /** Calls of process_timer_queue in a row. */
  method ProcessAll(queue: TimerQueue, ts: seq<nat>)
    requires queue.Valid()
    modifies queue`log, queue.list
    ensures queue.Valid()
    ensures Values(queue.list) == QueueAfter(old(Values(queue.list)), ts)
    ensures queue.log == old(queue.log) + Log(old(Values(queue.list)), ts)
  {
    hide Ticked, Raised, QueueAfter, Log;
    ghost var es, called := Values(queue.list), queue.log;
    RunStart(es, called);
    assert ts[..0] == [];
    for k := 0 to |ts|
      invariant queue.Valid() && Values(queue.list) == QueueAfter(es, ts[..k])
      invariant queue.log == called + Log(es, ts[..k])
    {
      RunStep(es, ts, k, called);
      queue.ProcessTimerQueue(ts[k]);
    }
    assert ts[..|ts|] == ts;
  }

  /** The events of a queue do not influence each other. */
  lemma {:induction false} EventsAreIndependent(es: seq<Event>, ts: seq<nat>, i: nat)
    requires i < |es|
    ensures QueueAfter(es, ts)[i] == After(es[i], ts)
  {
    hide Tick;
    if ts == [] {
    } else {
      EventsAreIndependent(es, ts[..|ts| - 1], i);
    }
  }

  predicate Calls(e: Event, f: Firing) {
    e.callback == Some(f.callback) && e.arg == f.arg
  }

  lemma {:induction false} CallsForever(e: Event, ts: seq<nat>, f: Firing)
    ensures Calls(After(e, ts), f) <==> Calls(e, f)
  {
    hide Tick;
    if ts == [] {
    } else {
      CallsForever(e, ts[..|ts| - 1], f);
      TickOf(After(e, ts[..|ts| - 1]), ts[|ts| - 1]);
    }
  }

  /** The firings of all events that make a given call. */
  function CallsMade(es: seq<Event>, ts: seq<nat>, f: Firing): nat {
    if es == [] then 0
    else CallsMade(es[..|es| - 1], ts, f) + if Calls(es[|es| - 1], f) then Firings(es[|es| - 1], ts) else 0
  }

  /** How many of the first n events of the queue a tick makes to give a call. */
  lemma {:induction false} RaisedCount(now: seq<Event>, es: seq<Event>, ts: seq<nat>, f: Firing, n: nat)
    requires n <= |es| && ts != [] && now == QueueAfter(es, ts[..|ts| - 1])
    ensures CallsMade(es[..n], ts, f) ==
              CallsMade(es[..n], ts[..|ts| - 1], f) + multiset(Raised(now, n, ts[|ts| - 1]))[f]
    decreases n
  {
    hide Fires, Calls, QueueAfter, FiringOf;
    var init, t := ts[..|ts| - 1], ts[|ts| - 1];
    if n > 0 {
      RaisedCount(now, es, ts, f, n - 1);
      EventsAreIndependent(es, init, n - 1);
      CallsForever(es[n - 1], init, f);
      FiringCount(now[n - 1], t, f);
      assert es[..n][..n - 1] == es[..n - 1];
    } else {
      assert es[..0] == [];
    }
  }

  lemma FiringCount(e: Event, t: nat, f: Firing)
    ensures multiset(FiringOf(e, t))[f] == if Calls(e, f) && Fires(e, t) then 1 else 0
  {
  }

  /** The log of a run holds every call as often as the events that make it fire. */
  lemma {:induction false} LogCounts(es: seq<Event>, ts: seq<nat>, f: Firing)
    ensures multiset(Log(es, ts))[f] == CallsMade(es, ts, f)
  {
    hide Raised, CallsMade;
    if ts != [] {
      var init := ts[..|ts| - 1];
      var now := QueueAfter(es, init);
      LogCounts(es, init, f);
      RaisedCount(now, es, ts, f, |es|);
      assert es[..|es|] == es;
    } else {
      NoCalls(es, f);
    }
  }

  lemma {:induction false} NoCalls(es: seq<Event>, f: Firing)
    ensures CallsMade(es, [], f) == 0
  {
    if es == [] {
    } else {
      NoCalls(es[..|es| - 1], f);
    }
  }

  lemma {:induction false} OnlyCaller(es: seq<Event>, ts: seq<nat>, f: Firing, i: nat)
    requires i < |es| && Calls(es[i], f)
    requires forall j :: 0 <= j < |es| && j != i ==> !Calls(es[j], f)
    ensures CallsMade(es, ts, f) == Firings(es[i], ts)
  {
    hide Calls;
    var init := es[..|es| - 1];
    if i < |es| - 1 {
      OnlyCaller(init, ts, f, i);
    } else {
      NoCaller(init, ts, f);
    }
  }

  lemma {:induction false} NoCaller(es: seq<Event>, ts: seq<nat>, f: Firing)
    requires forall j :: 0 <= j < |es| ==> !Calls(es[j], f)
    ensures CallsMade(es, ts, f) == 0
  {
    hide Calls;
    if es == [] {
    } else {
      NoCaller(es[..|es| - 1], ts, f);
    }
  }

  /** A callback that one event has for itself is called once in every ceil(period / step) ticks,
      whatever else is in the queue. */
  lemma CalledAtItsRate(es: seq<Event>, step: nat, n: nat, f: Firing, i: nat)
    requires i < |es| && Calls(es[i], f) && es[i].elapsed == 0
    requires 0 < step < U32 && es[i].period + step <= U32
    requires forall j :: 0 <= j < |es| && j != i ==> !Calls(es[j], f)
    ensures multiset(Log(es, Same(step, n)))[f] == n / Cycle(es[i].period, step)
  {
    hide Log, CallsMade, Firings, Calls, After, Cycle;
    LogCounts(es, Same(step, n), f);
    OnlyCaller(es, Same(step, n), f, i);
    ConstantStep(es[i], step, n);
  }
}
