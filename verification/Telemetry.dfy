/** The telemetry queue: producers, one worker thread and stop requests, as interleaved atomic steps. */
module Telemetry {

  type Event = int

  const MIN_EVENTS_TO_BATCH: nat := 30

  /** Where the worker thread stands. */
  datatype Worker =
    | NotStarted
    | AtTest                  // about to read the stop flag in the loop of daemon()
    | TestingEmpty            // the flag was set; about to test whether the queue is empty
    | Waiting                 // blocked on the queue, with a timeout
    | Holding(first: Event)   // has an event and waits for a batch
    | Reporting               // report_event is about to ask for another event: queue.empty() comes next
    | Fetching                // the queue was not empty; get_nowait comes next
    | Exited
    | Crashed

  predicate Alive(w: Worker) {
    !w.NotStarted? && !w.Exited? && !w.Crashed?
  }

  /** What became of an event taken from the queue: handed to report_event, or dropped because
      report_event raised before asking for it. */
  datatype Settled = Handed(event: Event) | Dropped(event: Event)

  /** `put` is every event ever put, in order; `inFlight` are the events of calls to enqueue_event that
      passed the test of the stop flag and have not put yet. */
  datatype State = State(put: seq<Event>, settled: seq<Settled>, queue: seq<Event>,
                         inFlight: seq<Event>, stopped: bool, worker: Worker)

  const INITIAL := State([], [], [], [], false, NotStarted)

  datatype Action =
    | Check(event: Event)
    | Put(i: nat)
    | Stop
    | Start
    | Work(late: bool, raises: bool)  // `late`: the timeout of the wait, or the batching time, is over

  function Append(s: State, event: Event): State {
    s.(put := s.put + [event], queue := s.queue + [event])
  }

  function Settle(s: State, entry: Settled, worker: Worker): State {
    s.(settled := s.settled + [entry], worker := worker)
  }

  function Batching(s: State, late: bool): bool {
    !s.stopped && |s.queue| + 1 < MIN_EVENTS_TO_BATCH && !late
  }

  /** One atomic step of the worker thread. */
  function WorkerStep(s: State, late: bool, raises: bool): State {
    match s.worker
    case AtTest => s.(worker := if s.stopped then TestingEmpty else Waiting)
    case TestingEmpty => s.(worker := if s.queue == [] then Exited else Waiting)
    case Waiting =>
      if raises then s.(worker := Crashed)
      else if s.queue != [] then s.(queue := s.queue[1..], worker := Holding(s.queue[0]))
      else if late then s.(worker := AtTest)
      else s
    case Holding(first) =>
      if Batching(s, late) then s
      else if raises then Settle(s, Dropped(first), Crashed)
      else Settle(s, Handed(first), Reporting)
    case Reporting =>
      if raises then s.(worker := Crashed)
      else s.(worker := if s.queue == [] then AtTest else Fetching)
    case Fetching =>
      if s.queue == [] then s.(worker := Reporting)
      else Settle(s, Handed(s.queue[0]), Reporting).(queue := s.queue[1..])
    case _ => s
  }

  /** An action that is not possible in a state leaves it unchanged. */
  function Step(s: State, a: Action): State {
    match a
    case Check(event) => if s.stopped then s else s.(inFlight := s.inFlight + [event])
    case Put(i) =>
      if i < |s.inFlight| then Append(s, s.inFlight[i]).(inFlight := s.inFlight[..i] + s.inFlight[i + 1..]) else s
    case Stop => s.(stopped := true)
    case Start => if Alive(s.worker) then s else s.(stopped := false, worker := AtTest)
    case Work(late, raises) => WorkerStep(s, late, raises)
  }

  function StateAfter(s: State, actions: seq<Action>): State
    decreases |actions|
  {
    if actions == [] then s else StateAfter(Step(s, actions[0]), actions[1..])
  }
}
