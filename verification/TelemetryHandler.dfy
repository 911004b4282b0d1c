/** The telemetry handler as an object: its loops, with the other threads running before each step,
    make exactly the steps of the state machine. */
module TelemetryHandlers {
  import opened Telemetry

  /** What other threads do before one step of the worker, and how that step goes. */
  datatype Turn = Turn(others: seq<Action>, late: bool, raises: bool)

  predicate ByOthers(actions: seq<Action>) {
    forall i :: 0 <= i < |actions| ==> actions[i].Check? || actions[i].Put? || actions[i].Stop?
  }

  predicate Fair(turns: seq<Turn>) {
    forall i :: 0 <= i < |turns| ==> ByOthers(turns[i].others)
  }

  function ActionsOf(turns: seq<Turn>): seq<Action> {
    if turns == [] then []
    else
      var last := turns[|turns| - 1];
      ActionsOf(turns[..|turns| - 1]) + (last.others + [Work(last.late, last.raises)])
  }

  /** The state after the first `used` turns. */
  function After(s: State, turns: seq<Turn>, used: nat): State
    requires used <= |turns|
  {
    StateAfter(s, ActionsOf(turns[..used]))
  }

  lemma {:induction false} StateAfterConcat(s: State, a: seq<Action>, b: seq<Action>)
    ensures StateAfter(s, a + b) == StateAfter(StateAfter(s, a), b)
    decreases |a|
  {
    if a == [] {
      assert a + b == b;
    } else {
      assert (a + b)[1..] == a[1..] + b;
      StateAfterConcat(Step(s, a[0]), a[1..], b);
    }
  }

  lemma {:induction false} AfterTurn(s: State, turns: seq<Turn>, used: nat)
    requires used < |turns|
    ensures var turn := turns[used];
            After(s, turns, used + 1) ==
            WorkerStep(StateAfter(After(s, turns, used), turn.others), turn.late, turn.raises)
  {
    var turn := turns[used];
    var work := [Work(turn.late, turn.raises)];
    assert turns[..used + 1][..used] == turns[..used];
    StateAfterConcat(s, ActionsOf(turns[..used]), turn.others + work);
    StateAfterConcat(After(s, turns, used), turn.others, work);
    assert work[1..] == [];
  }

  class SendTelemetryEventsHandler {
    var put: seq<Event>
    var settled: seq<Settled>
    var queue: seq<Event>
    var inFlight: seq<Event>
    var stopped: bool

    constructor ()
      ensures Now(NotStarted) == INITIAL
    {
      put, settled, queue, inFlight, stopped := [], [], [], [], false;
    }

    ghost function Now(worker: Worker): State
      reads this
    {
      State(put, settled, queue, inFlight, stopped, worker)
    }

    /** The first half of enqueue_event. */
    method TestStopped(event: Event) returns (accepted: bool)
      modifies this
      ensures accepted == !old(stopped)
      ensures forall w :: Now(w) == Step(old(Now(w)), Check(event))
    {
      accepted := !stopped;
      if accepted {
        inFlight := inFlight + [event];
      }
    }

    /** The second half, for the i-th call in flight. */
    method PutEvent(i: nat)
      modifies this
      ensures forall w :: Now(w) == Step(old(Now(w)), Put(i))
    {
      if i < |inFlight| {
        put, queue := put + [inFlight[i]], queue + [inFlight[i]];
        inFlight := inFlight[..i] + inFlight[i + 1..];
      }
    }

    method RequestStop()
      modifies this
      ensures forall w :: Now(w) == Step(old(Now(w)), Stop)
    {
      stopped := true;
    }

    method LetOthersRun(others: seq<Action>, ghost w: Worker)
      requires ByOthers(others)
      modifies this
      ensures Now(w) == StateAfter(old(Now(w)), others)
    {
      for i := 0 to |others|
        invariant Now(w) == StateAfter(old(Now(w)), others[..i])
      {
        ghost var before := Now(w);
        match others[i] {
          case Check(event) => var _ := TestStopped(event);
          case Put(k) => PutEvent(k);
          case Stop => RequestStop();
        }
        assert others[..i + 1] == others[..i] + [others[i]];
        StateAfterConcat(old(Now(w)), others[..i], [others[i]]);
        assert [others[i]][1..] == [];
        assert StateAfter(before, [others[i]]) == Step(before, others[i]);
      }
      assert others[..|others|] == others;
    }

    method WaitForEventInQueue(turns: seq<Turn>, start: nat, ghost s: State) returns (used: nat, at: Worker)
      requires Fair(turns) && start <= |turns| && Now(Waiting) == After(s, turns, start)
      modifies this
      ensures start <= used <= |turns| && Now(at) == After(s, turns, used)
      ensures at.Holding? || at.AtTest? || at.Crashed? || (at.Waiting? && used == |turns|)
    {
      used := start;
      while used < |turns|
        invariant start <= used <= |turns| && Now(Waiting) == After(s, turns, used)
      {
        var turn := turns[used];
        LetOthersRun(turn.others, Waiting);
        AfterTurn(s, turns, used);
        used := used + 1;
        if turn.raises {
          return used, Crashed;
        } else if queue != [] {
          var event := queue[0];
          queue := queue[1..];
          return used, Holding(event);
        } else if turn.late {
          return used, AtTest;
        }
      }
      at := Waiting;
    }

    /** The generator, as report_event drives it. */
    method GetEventsInQueue(turns: seq<Turn>, start: nat, ghost s: State) returns (used: nat, at: Worker)
      requires Fair(turns) && start <= |turns| && Now(Reporting) == After(s, turns, start)
      modifies this
      ensures start <= used <= |turns| && Now(at) == After(s, turns, used)
      ensures at.AtTest? || at.Crashed? || ((at.Reporting? || at.Fetching?) && used == |turns|)
    {
      used := start;
      while used < |turns|
        invariant start <= used <= |turns| && Now(Reporting) == After(s, turns, used)
      {
        var turn := turns[used];
        LetOthersRun(turn.others, Reporting);
        AfterTurn(s, turns, used);
        used := used + 1;
        if turn.raises {
          return used, Crashed;
        }
        if queue == [] {
          return used, AtTest;
        }
        if used == |turns| {
          return used, Fetching;
        }
        turn := turns[used];
        LetOthersRun(turn.others, Fetching);
        AfterTurn(s, turns, used);
        used := used + 1;
        if queue != [] {
          settled := settled + [Handed(queue[0])];
          queue := queue[1..];
        }
      }
      at := Reporting;
    }

    method SendEventsInQueue(first: Event, turns: seq<Turn>, start: nat, ghost s: State) returns (used: nat, at: Worker)
      requires Fair(turns) && start <= |turns| && Now(Holding(first)) == After(s, turns, start)
      modifies this
      ensures start <= used <= |turns| && Now(at) == After(s, turns, used)
      ensures at.AtTest? || at.Crashed? || used == |turns|
    {
      used := start;
      while used < |turns|
        invariant start <= used <= |turns| && Now(Holding(first)) == After(s, turns, used)
      {
        var turn := turns[used];
        LetOthersRun(turn.others, Holding(first));
        AfterTurn(s, turns, used);
        used := used + 1;
        if stopped || |queue| + 1 >= MIN_EVENTS_TO_BATCH || turn.late {
          if turn.raises {
            settled := settled + [Dropped(first)];
            return used, Crashed;
          }
          settled := settled + [Handed(first)];
          used, at := GetEventsInQueue(turns, used, s);
          return;
        }
      }
      at := Holding(first);
    }

    /** The worker thread, up to its exit or to the end of the given turns: after as many steps as turns
        used, the handler is where the state machine is. */
    method Daemon(turns: seq<Turn>) returns (used: nat, at: Worker)
      requires Fair(turns)
      modifies this
      ensures used <= |turns| && Now(at) == After(old(Now(AtTest)), turns, used)
      ensures at.Exited? || at.Crashed? || used == |turns|
    {
      ghost var s := Now(AtTest);
      used := 0;
      while used < |turns|
        invariant used <= |turns| && Now(AtTest) == After(s, turns, used)
      {
        var turn := turns[used];
        LetOthersRun(turn.others, AtTest);
        AfterTurn(s, turns, used);
        used := used + 1;
        if stopped {
          if used == |turns| {
            return used, TestingEmpty;
          }
          turn := turns[used];
          LetOthersRun(turn.others, TestingEmpty);
          AfterTurn(s, turns, used);
          used := used + 1;
          if queue == [] {
            return used, Exited;
          }
        }
        used, at := WaitForEventInQueue(turns, used, s);
        if at.Holding? {
          used, at := SendEventsInQueue(at.first, turns, used, s);
        }
        if !at.AtTest? {
          return;
        }
      }
      at := AtTest;
    }
  }
}
