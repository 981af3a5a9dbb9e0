/** The timer queue (src/kernel/timer.c). Callbacks are recorded as firings. */
module Timer {
  import opened Wrappers
  import opened KHash
  import opened KString

  datatype Firing = Firing(callback: nat, arg: nat)

  /** An event as a value. */
  datatype Event = Event(name: string, hash: nat, period: nat, elapsed: nat, callback: Option<nat>, arg: nat)

  /** The 32-bit sum of the elapsed times has reached the period. */
  predicate Fires(e: Event, t: nat) {
    (e.elapsed + t) % U32 >= e.period
  }

  function Tick(e: Event, t: nat): Event {
    e.(elapsed := if Fires(e, t) then 0 else (e.elapsed + t) % U32)
  }

  function Ticked(es: seq<Event>, t: nat): (r: seq<Event>)
    ensures |r| == |es| && forall i :: 0 <= i < |es| ==> r[i] == Tick(es[i], t)
  {
    if es == [] then [] else [Tick(es[0], t)] + Ticked(es[1..], t)
  }

  function FiringOf(e: Event, t: nat): seq<Firing> {
    if Fires(e, t) && e.callback.Some? then [Firing(e.callback.value, e.arg)] else []
  }

  /** The callbacks that a tick calls for the first n events, in order. */
  function Raised(es: seq<Event>, n: nat, t: nat): seq<Firing>
    requires n <= |es|
  {
    if n == 0 then [] else Raised(es, n - 1, t) + FiringOf(es[n - 1], t)
  }

  class TimerEvent {
    var name: string
    var hash: nat
    var period: nat
    var elapsed: nat
    var callback: Option<nat>
    var arg: nat
    var next: TimerEvent?

    function Value(): Event
      reads this
    {
      Event(name, hash, period, elapsed, callback, arg)
    }

    constructor (name: string, hash: nat, period: nat, callback: nat, arg: nat)
      ensures next == null && Value() == Event(name, hash, period, 0, Some(callback), arg)
    {
      this.name, this.hash, this.period, this.elapsed := name, hash, period, 0;
      this.callback, this.arg, this.next := Some(callback), arg, null;
    }

    /** One event of the queue: the callbacks called are returned. */
    method Process(elapsedTime: nat) returns (fired: seq<Firing>)
      modifies `elapsed
      ensures Value() == Tick(old(Value()), elapsedTime)
      ensures fired == FiringOf(old(Value()), elapsedTime)
    {
      fired := [];
      if (elapsed + elapsedTime) % U32 >= period {
        if callback.Some? {
          fired := [Firing(callback.value, arg)];
        }
        elapsed := 0;
      } else {
        elapsed := (elapsed + elapsedTime) % U32;
      }
    }
  }

  function Values(list: seq<TimerEvent>): (es: seq<Event>)
    reads list
    ensures |es| == |list| && forall i :: 0 <= i < |list| ==> es[i] == list[i].Value()
  {
    if list == [] then [] else [list[0].Value()] + Values(list[1..])
  }

  class TimerQueue {
    var events: TimerEvent?
    var log: seq<Firing>
    /** The events that are linked from the head on. */
    ghost var list: seq<TimerEvent>

    ghost predicate Valid()
      reads this, list
    {
      && events == (if list == [] then null else list[0])
      && (forall i {:trigger list[i].next} :: 0 <= i < |list| ==> list[i].next == if i + 1 < |list| then list[i + 1] else null)
      && (forall i, j :: 0 <= i < j < |list| ==> list[i] != list[j])
    }

    constructor ()
      ensures Valid() && list == [] && log == []
    {
      events, log, list := null, [], [];
    }

    /** The search for the end of the list in add_timer_event: it moves the head. */
    method MoveToLast()
      requires Valid() && list != []
      modifies `events, `list
      ensures Valid() && list == [old(list[|list| - 1])]
    {
      ghost var i: nat := 0;
      while events.next != null
        invariant i < |list| && events == list[i]
        invariant list == old(list) && list[|list| - 1].next == null
        decreases |list| - i
      {
        events := events.next;
        i := i + 1;
      }
      list := [events];
    }

    /** add_timer_event as it is written: only the event that was last and the new one are linked
        afterwards. */
    method AddTimerEvent(name: string, period: nat, callback: Option<nat>, arg: nat)
      requires Valid() && NUL !in name
      modifies this, list
      ensures Valid() && log == old(log)
      ensures callback.None? ==> Values(list) == old(Values(list))
      ensures callback.Some? ==>
                Values(list) == Tail(old(Values(list))) + [Event(name, HashOf(name), period, 0, callback, arg)]
    {
      if callback.None? {
        return;
      }
      var hash := HashName(name);
      var event := new TimerEvent(name, hash, period, callback.value, arg);
      LinkAfterLast(event);
    }

    method LinkAfterLast(event: TimerEvent)
      requires Valid() && event !in list && event.next == null
      modifies this, list
      ensures Valid() && log == old(log)
      ensures list == (if old(list) == [] then [event] else [old(list[|list| - 1]), event])
      ensures Values(list) == old(Tail(Values(list)) + [event.Value()])
    {
      if events != null {
        MoveToLast();
        events.next := event;
        list := [events, event];
      } else {
        events := event;
        list := [event];
      }
    }

    /** Adding an event as the comment at line 55 has it: at the end, with a cursor of its own. */
    method Append(event: TimerEvent)
      requires Valid() && event !in list && event.next == null
      modifies this, list
      ensures Valid() && list == old(list) + [event] && log == old(log)
      ensures Values(list) == old(Values(list)) + [old(event.Value())]
    {
      if events != null {
        var cursor: TimerEvent := events;
        ghost var i: nat := 0;
        while cursor.next != null
          invariant i < |list| && cursor == list[i]
          decreases |list| - i
        {
          cursor := cursor.next;
          i := i + 1;
        }
        cursor.next := event;
      } else {
        events := event;
      }
      list := list + [event];
    }

    /** The body of the loop over the queue. */
    method ProcessAt(ghost i: nat, event: TimerEvent, elapsedTime: nat)
      requires Valid() && i < |list| && list[i] == event
      modifies this`log, event`elapsed
      ensures Valid()
      ensures Values(list) == old(Values(list))[i := Tick(old(Values(list))[i], elapsedTime)]
      ensures log == old(log) + FiringOf(old(Values(list))[i], elapsedTime)
    {
      hide Tick, FiringOf;
      var fired := event.Process(elapsedTime);
      log := log + fired;
    }

    /** process_timer_queue. */
    method ProcessTimerQueue(elapsedTime: nat)
      requires Valid()
      modifies this`log, list
      ensures Valid()
      ensures Values(list) == Ticked(old(Values(list)), elapsedTime)
      ensures log == old(log) + Raised(old(Values(list)), |list|, elapsedTime)
    {
      hide Tick, FiringOf, Halfway, Ticked, Raised;
      ghost var before, called := Values(list), log;
      var queue := events;
      ghost var i: nat := 0;
      HalfwayStep(before, 0, elapsedTime);
      assert called + Raised(before, 0, elapsedTime) == called by { RaisedNothing(before, elapsedTime); }
      while queue != null
        invariant Valid() && i <= |list| == |before| && queue == (if i < |list| then list[i] else null)
        invariant Values(list) == Halfway(before, i, elapsedTime)
        invariant log == called + Raised(before, i, elapsedTime)
        decreases |list| - i
      {
        HalfwayStep(before, i, elapsedTime);
        RaisedStep(before, i, elapsedTime, called);
        ProcessAt(i, queue, elapsedTime);
        queue := queue.next;
        i := i + 1;
      }
      HalfwayStep(before, i, elapsedTime);
    }
  }

  lemma RaisedNothing(es: seq<Event>, t: nat)
    ensures Raised(es, 0, t) == []
  {
  }

  lemma RaisedStep(es: seq<Event>, i: nat, t: nat, called: seq<Firing>)
    requires i < |es|
    ensures called + Raised(es, i + 1, t) == called + Raised(es, i, t) + FiringOf(es[i], t)
  {
    hide FiringOf;
  }

  /** The first i events after a tick, the others before it. */
  function Halfway(es: seq<Event>, i: nat, t: nat): (r: seq<Event>)
    ensures |r| == |es| && forall k :: 0 <= k < |es| ==> r[k] == if k < i then Tick(es[k], t) else es[k]
  {
    seq(|es|, k requires 0 <= k < |es| => if k < i then Tick(es[k], t) else es[k])
  }

  lemma HalfwayStep(es: seq<Event>, i: nat, t: nat)
    requires i <= |es|
    ensures Halfway(es, 0, t) == es
    ensures i == |es| ==> Halfway(es, i, t) == Ticked(es, t)
    ensures i < |es| ==> Halfway(es, i, t)[i] == es[i] && Halfway(es, i + 1, t) == Halfway(es, i, t)[i := Tick(es[i], t)]
  {
    hide Tick;
  }

  /** The last event, if there is one. */
  function Tail(es: seq<Event>): seq<Event> {
    if es == [] then [] else es[|es| - 1..]
  }

  method HashName(name: string) returns (h: nat)
    requires NUL !in name
    ensures h == HashOf(name)
  {
    assert (name + [NUL])[..|name|] == name;
    CLengthIs(name + [NUL], |name|);
    h := Hash32(name + [NUL], |name|);
  }

  /** Adding as written keeps the events that were there exactly if there was one at most. */
  lemma AddKeepsEvents(es: seq<Event>, e: Event)
    ensures Tail(es) + [e] == es + [e] <==> |es| <= 1
  {
    if |es| > 1 {
      assert |Tail(es) + [e]| == 2;
    }
  }
}
