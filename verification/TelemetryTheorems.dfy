/** No interleaving of producers, worker, stops and restarts loses, repeats or reorders an event. */
module TelemetryTheorems {
  import opened Telemetry

  function EventsOf(settled: seq<Settled>): seq<Event> {
    if settled == [] then [] else EventsOf(settled[..|settled| - 1]) + [settled[|settled| - 1].event]
  }

  function Held(w: Worker): seq<Event> {
    if w.Holding? then [w.first] else []
  }

  function Drops(settled: seq<Settled>): nat {
    if settled == [] then 0
    else Drops(settled[..|settled| - 1]) + (if settled[|settled| - 1].Dropped? then 1 else 0)
  }

  /** The events put are the settled ones, then the held one, then the queue, in order; the worker never asks
      an empty queue for an event, and makes its final test only when stopped. */
  ghost predicate Accounted(s: State) {
    && s.put == EventsOf(s.settled) + Held(s.worker) + s.queue
    && (s.worker.Fetching? ==> s.queue != [])
    && (s.worker.TestingEmpty? ==> s.stopped)
  }

  lemma {:induction false} SettleOne(settled: seq<Settled>, entry: Settled)
    ensures EventsOf(settled + [entry]) == EventsOf(settled) + [entry.event]
    ensures Drops(settled + [entry]) == Drops(settled) + (if entry.Dropped? then 1 else 0)
  {
    assert (settled + [entry])[..|settled|] == settled;
  }

  /** The head of the queue may be held, or the held event settled, without changing the order. */
  lemma {:induction false} Regroup(done: seq<Event>, head: Event, rest: seq<Event>)
    ensures done + [] + ([head] + rest) == done + [head] + rest == (done + [head]) + [] + rest
  {
  }

  /** Settling the held event. */
  lemma {:induction false} SettleKeepsAccounted(s: State, entry: Settled, worker: Worker)
    requires Accounted(s) && s.worker.Holding? && entry.event == s.worker.first
    requires (worker.Reporting? || worker.Crashed?)
    ensures Accounted(Settle(s, entry, worker))
  {
    SettleOne(s.settled, entry);
    Regroup(EventsOf(s.settled), entry.event, s.queue);
  }

  /** Taking the head of the queue, to hold it or to hand it over. */
  lemma {:induction false} TakeKeepsAccounted(s: State)
    requires Accounted(s) && !s.worker.Holding? && s.queue != []
    ensures Accounted(s.(queue := s.queue[1..], worker := Holding(s.queue[0])))
    ensures Accounted(Settle(s, Handed(s.queue[0]), Reporting).(queue := s.queue[1..]))
  {
    assert s.queue == [s.queue[0]] + s.queue[1..];
    SettleOne(s.settled, Handed(s.queue[0]));
    Regroup(EventsOf(s.settled), s.queue[0], s.queue[1..]);
  }

  lemma {:induction false} WorkerStepKeepsAccounted(s: State, late: bool, raises: bool)
    requires Accounted(s)
    ensures Accounted(WorkerStep(s, late, raises)) && WorkerStep(s, late, raises).put == s.put
  {
    match s.worker {
      case Holding(first) =>
        SettleKeepsAccounted(s, Dropped(first), Crashed);
        SettleKeepsAccounted(s, Handed(first), Reporting);
      case _ =>
        if s.queue != [] {
          TakeKeepsAccounted(s);
        }
    }
  }

  lemma {:induction false} StepKeepsAccounted(s: State, a: Action)
    requires Accounted(s)
    ensures Accounted(Step(s, a))
  {
    if a.Work? {
      WorkerStepKeepsAccounted(s, a.late, a.raises);
    }
  }

  lemma {:induction false} RunIsAccounted(s: State, actions: seq<Action>)
    requires Accounted(s)
    ensures Accounted(StateAfter(s, actions))
    decreases |actions|
  {
    if actions != [] {
      StepKeepsAccounted(s, actions[0]);
      RunIsAccounted(Step(s, actions[0]), actions[1..]);
    }
  }

  /** In every interleaving from the start every event put is settled, held or queued, once and in order. */
  lemma {:induction false} EveryEventIsAccounted(actions: seq<Action>)
    ensures Accounted(StateAfter(INITIAL, actions))
  {
    RunIsAccounted(INITIAL, actions);
  }

  // ----- Only report_event can drop an event -----

  ghost predicate DropsEvent(s: State, a: Action) {
    a.Work? && a.raises && s.worker.Holding? && !Batching(s, a.late)
  }

  ghost function DropsIn(s: State, actions: seq<Action>): nat
    decreases |actions|
  {
    if actions == [] then 0
    else (if DropsEvent(s, actions[0]) then 1 else 0) + DropsIn(Step(s, actions[0]), actions[1..])
  }

  lemma {:induction false} WorkDrops(s: State, late: bool, raises: bool)
    ensures Drops(WorkerStep(s, late, raises).settled)
         == Drops(s.settled) + (if DropsEvent(s, Work(late, raises)) then 1 else 0)
  {
    match s.worker {
      case Holding(first) =>
        SettleOne(s.settled, Dropped(first));
        SettleOne(s.settled, Handed(first));
      case Fetching =>
        if s.queue != [] {
          SettleOne(s.settled, Handed(s.queue[0]));
        }
      case _ =>
    }
  }

  lemma {:induction false} StepDrops(s: State, a: Action)
    ensures Drops(Step(s, a).settled) == Drops(s.settled) + (if DropsEvent(s, a) then 1 else 0)
  {
    if a.Work? {
      WorkDrops(s, a.late, a.raises);
    }
  }

  /** Events are dropped only by report_event raising before it asks for the held event, one each time. */
  lemma {:induction false} DropsAreRaises(s: State, actions: seq<Action>)
    ensures Drops(StateAfter(s, actions).settled) == Drops(s.settled) + DropsIn(s, actions)
    decreases |actions|
  {
    if actions != [] {
      StepDrops(s, actions[0]);
      DropsAreRaises(Step(s, actions[0]), actions[1..]);
    }
  }

  lemma {:induction false} NoDropMeansHanded(settled: seq<Settled>)
    ensures Drops(settled) == 0 <==> forall i :: 0 <= i < |settled| ==> settled[i].Handed?
  {
    if settled != [] {
      NoDropMeansHanded(settled[..|settled| - 1]);
    }
  }

  /** Everything settled was handed over exactly when report_event never raised that way. */
  lemma {:induction false} HandedExactlyWhen(actions: seq<Action>)
    ensures var s := StateAfter(INITIAL, actions);
            (forall i :: 0 <= i < |s.settled| ==> s.settled[i].Handed?) <==> DropsIn(INITIAL, actions) == 0
  {
    DropsAreRaises(INITIAL, actions);
    NoDropMeansHanded(StateAfter(INITIAL, actions).settled);
  }

  // ----- Exit -----

  /** The worker exits only when stopped, and then every event put so far is settled. */
  lemma {:induction false} ExitMeansDrained(actions: seq<Action>, a: Action)
    ensures var s := StateAfter(INITIAL, actions);
            Step(s, a).worker.Exited? && !s.worker.Exited? ==>
              s.worker.TestingEmpty? && s.stopped && s.put == EventsOf(s.settled) && Step(s, a) == s.(worker := Exited)
  {
    EveryEventIsAccounted(actions);
  }

  ghost predicate NoStart(actions: seq<Action>) {
    forall i :: 0 <= i < |actions| ==> !actions[i].Start?
  }

  lemma {:induction false} PutMovesOne(queue: seq<Event>, inFlight: seq<Event>, i: nat)
    requires i < |inFlight|
    ensures multiset(queue + [inFlight[i]]) + multiset(inFlight[..i] + inFlight[i + 1..])
         == multiset(queue) + multiset(inFlight)
  {
    assert inFlight == inFlight[..i] + [inFlight[i]] + inFlight[i + 1..];
  }

  /** After the exit, until a restart, nothing more is settled, and what is put are events whose producers
      had passed the stop test before: queue and in-flight events together stay the same. */
  lemma {:induction false} LeftoversWereInFlight(s: State, actions: seq<Action>)
    requires s.stopped && s.worker.Exited? && NoStart(actions)
    ensures var t := StateAfter(s, actions);
            && t.settled == s.settled && t.stopped && t.worker.Exited?
            && multiset(t.queue) + multiset(t.inFlight) == multiset(s.queue) + multiset(s.inFlight)
    decreases |actions|
  {
    if actions != [] {
      var a := actions[0];
      if a.Put? && a.i < |s.inFlight| {
        PutMovesOne(s.queue, s.inFlight, a.i);
      }
      LeftoversWereInFlight(Step(s, a), actions[1..]);
    }
  }

  lemma {:induction false} NoneLeft(queue: seq<Event>, inFlight: seq<Event>)
    requires multiset(queue) + multiset(inFlight) == multiset{}
    ensures queue == []
  {
    assert |multiset(queue) + multiset(inFlight)| == |queue| + |inFlight|;
  }

  /** Nothing is put after the exit, in any continuation without a restart, exactly when no producer was between its
      test and its put. */
  lemma {:induction false} NothingIsLeftExactlyWhen(s: State)
    requires s.stopped && s.worker.Exited? && s.queue == []
    ensures (forall actions :: NoStart(actions) ==> StateAfter(s, actions).queue == []) <==> s.inFlight == []
  {
    if s.inFlight == [] {
      forall actions | NoStart(actions)
        ensures StateAfter(s, actions).queue == []
      {
        LeftoversWereInFlight(s, actions);
        NoneLeft(StateAfter(s, actions).queue, StateAfter(s, actions).inFlight);
      }
    } else {
      assert NoStart([Put(0)]);
      FirstStep(s, Step(s, Put(0)), [Put(0)]);
    }
  }

  lemma {:induction false} PutIsSettledAndQueue(s: State, later: seq<Action>)
    requires Accounted(s) && s.stopped && s.worker.Exited? && NoStart(later)
    ensures StateAfter(s, later).put == EventsOf(s.settled) <==> StateAfter(s, later).queue == []
  {
    var t := StateAfter(s, later);
    RunIsAccounted(s, later);
    LeftoversWereInFlight(s, later);
    assert t.put == EventsOf(s.settled) + t.queue;
    assert |t.put| == |EventsOf(s.settled)| + |t.queue|;
  }

  lemma {:induction false} FinalExactlyWhen(s: State)
    requires Accounted(s) && s.stopped && s.worker.Exited? && s.queue == []
    ensures (forall later :: NoStart(later) ==> StateAfter(s, later).put == EventsOf(s.settled)) <==> s.inFlight == []
  {
    NothingIsLeftExactlyWhen(s);
    forall later | NoStart(later)
      ensures StateAfter(s, later).put == EventsOf(s.settled) <==> StateAfter(s, later).queue == []
    {
      PutIsSettledAndQueue(s, later);
    }
  }

  /** At every exit of every run: the events put are all settled, now and in every continuation without a restart,
      exactly when no accepted event is in flight. */
  lemma {:induction false} ExitIsFinalExactlyWhen(actions: seq<Action>, a: Action)
    requires !StateAfter(INITIAL, actions).worker.Exited? && Step(StateAfter(INITIAL, actions), a).worker.Exited?
    ensures var s := Step(StateAfter(INITIAL, actions), a);
            (forall later :: NoStart(later) ==> StateAfter(s, later).put == EventsOf(s.settled)) <==> s.inFlight == []
  {
    ExitMeansDrained(actions, a);
    EveryEventIsAccounted(actions);
    StepKeepsAccounted(StateAfter(INITIAL, actions), a);
    FinalExactlyWhen(Step(StateAfter(INITIAL, actions), a));
  }

  lemma {:induction false} FirstStep(s: State, t: State, actions: seq<Action>)
    requires actions != [] && Step(s, actions[0]) == t
    ensures StateAfter(s, actions) == StateAfter(t, actions[1..])
  {
  }

  /** A producer overtaken by stop and exit between its test and its put leaves its event behind, although
      enqueue_event accepted it. */
  lemma {:induction false} LatePutIsLeftBehind(event: Event)
    ensures var run := [Start, Check(event), Stop, Work(true, false), Work(true, false), Put(0)];
            StateAfter(INITIAL, run) == State([event], [], [event], [], true, Exited)
  {
    var work := Work(true, false);
    var run := [Start, Check(event), Stop, work, work, Put(0)];
    FirstStep(INITIAL, INITIAL.(worker := AtTest), run);
    FirstStep(INITIAL.(worker := AtTest), State([], [], [], [event], false, AtTest), run[1..]);
    FirstStep(State([], [], [], [event], false, AtTest), State([], [], [], [event], true, AtTest), run[2..]);
    FirstStep(State([], [], [], [event], true, AtTest), State([], [], [], [event], true, TestingEmpty), run[3..]);
    FirstStep(State([], [], [], [event], true, TestingEmpty), State([], [], [], [event], true, Exited), run[4..]);
    FirstStep(State([], [], [], [event], true, Exited), State([event], [], [event], [], true, Exited), run[5..]);
  }

  // ----- Draining -----

  /** No restart and no exception, and every wait the worker makes is over in time. */
  ghost predicate Draining(actions: seq<Action>)
  {
    forall i :: 0 <= i < |actions| ==>
        !actions[i].Start? && (actions[i].Work? ==> actions[i].late && !actions[i].raises)
  }

  function WorkSteps(actions: seq<Action>): nat {
    if actions == [] then 0 else (if actions[0].Work? then 1 else 0) + WorkSteps(actions[1..])
  }

  function Distance(s: State): nat {
    match s.worker
    case TestingEmpty => 4
    case AtTest => 5
    case Waiting => if s.queue == [] then 6 else 3
    case Fetching => 6
    case Reporting => 7
    case Holding(_) => 8
    case _ => 0
  }

  /** An upper bound on the steps the worker takes to its exit, once stopped. */
  function Remaining(s: State): nat {
    6 * (|s.queue| + |s.inFlight|) + Distance(s)
  }

  lemma {:induction false} WorkGetsCloser(s: State)
    requires Accounted(s) && s.stopped && Alive(s.worker)
    ensures var t := WorkerStep(s, true, false);
            Remaining(t) < Remaining(s) && t.stopped && (Alive(t.worker) || t.worker.Exited?)
  {
  }

  /** Once stopped, with any producers still in flight, the worker exits within six steps for each event
      queued or in flight and eight more: what shutdown relies on when it joins with a timeout. */
  lemma {:induction false} StopDrains(s: State, actions: seq<Action>)
    requires Accounted(s) && s.stopped && (Alive(s.worker) || s.worker.Exited?)
    requires Draining(actions) && WorkSteps(actions) >= Remaining(s)
    ensures StateAfter(s, actions).worker.Exited?
    decreases |actions|
  {
    if actions == [] {
      assert Remaining(s) == 0;
    } else {
      var a := actions[0];
      StepKeepsAccounted(s, a);
      if a.Work? && Alive(s.worker) {
        WorkGetsCloser(s);
      }
      if s.worker.Exited? {
        ExitedStays(s, actions);
      } else {
        StopDrains(Step(s, a), actions[1..]);
      }
    }
  }

  lemma {:induction false} ExitedStays(s: State, actions: seq<Action>)
    requires s.worker.Exited? && Draining(actions)
    ensures StateAfter(s, actions).worker.Exited?
    decreases |actions|
  {
    if actions != [] {
      ExitedStays(Step(s, actions[0]), actions[1..]);
    }
  }
}
