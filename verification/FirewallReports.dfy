/** The report limiter of EnableFirewall: how many executions may report per period and per
    stretch of executions in which the firewall does not change between OK and not OK. */
module FirewallReports {
  import opened FirewallRules

  const REPORTING_PERIOD: int := 86400
  const MAX_REPORTS_WHEN_OK: nat := 1
  const MAX_REPORTS_WHEN_NOT_OK: nat := 3
  const MAX_REPORTS_PER_PERIOD: nat := 8

  datatype Reporter = Reporter(state: FirewallState, reports: nat, periodReports: nat, periodEnd: int,
                               shouldReport: bool)

  function Limit(state: FirewallState): nat {
    if state == OK then MAX_REPORTS_WHEN_OK else MAX_REPORTS_WHEN_NOT_OK
  }

  /** The states an execution goes through and the two readings of the clock at its start. */
  datatype Execution = Execution(now: int, resetNow: int, states: seq<FirewallState>)

  predicate PeriodElapsed(r: Reporter, x: Execution) {
    x.now >= r.periodEnd
  }

  function UpdateReportingState(r: Reporter, x: Execution): Reporter
  {
    var r1 :=
      if !PeriodElapsed(r, x) then r
      else r.(reports := 0, periodReports := 0, periodEnd := x.resetNow + REPORTING_PERIOD);
    r1.(shouldReport := r1.reports < Limit(r1.state) && r1.periodReports < MAX_REPORTS_PER_PERIOD)
  }

  predicate Flips(from: FirewallState, to: FirewallState) {
    (from == OK) != (to == OK)
  }

  function UpdateFirewallState(r: Reporter, state: FirewallState): Reporter
  {
    (if Flips(r.state, state) && r.periodReports < MAX_REPORTS_PER_PERIOD
     then r.(reports := 0, shouldReport := true) else r)
    .(state := state)
  }

  function UpdateStates(r: Reporter, states: seq<FirewallState>): Reporter
    decreases |states|
  {
    if states == [] then r else UpdateStates(UpdateFirewallState(r, states[0]), states[1..])
  }

  function Finish(r: Reporter): Reporter {
    if r.shouldReport then r.(reports := r.reports + 1, periodReports := r.periodReports + 1) else r
  }

  function Execute(r: Reporter, x: Execution): Reporter {
    Finish(UpdateStates(UpdateReportingState(r, x), x.states))
  }

  // ----- Counting reports over a run -----

  predicate Reports(r: Reporter, x: Execution) {
    Execute(r, x).shouldReport
  }

  function After(r: Reporter, xs: seq<Execution>): Reporter
    decreases |xs|
  {
    if xs == [] then r else After(Execute(r, xs[0]), xs[1..])
  }

  function ReportCount(r: Reporter, xs: seq<Execution>): nat
    decreases |xs|
  {
    if xs == [] then 0 else (if Reports(r, xs[0]) then 1 else 0) + ReportCount(Execute(r, xs[0]), xs[1..])
  }

  predicate SamePeriod(r: Reporter, xs: seq<Execution>)
    decreases |xs|
  {
    xs == [] || (!PeriodElapsed(r, xs[0]) && SamePeriod(Execute(r, xs[0]), xs[1..]))
  }

  predicate NoFlip(state: FirewallState, states: seq<FirewallState>)
    decreases |states|
  {
    states == [] || (!Flips(state, states[0]) && NoFlip(states[0], states[1..]))
  }

  /** No execution changes between OK and not OK, not even in passing. */
  predicate SameStretch(r: Reporter, xs: seq<Execution>)
    decreases |xs|
  {
    xs == [] || (NoFlip(r.state, xs[0].states) && SameStretch(Execute(r, xs[0]), xs[1..]))
  }

  predicate Valid(r: Reporter) {
    r.periodReports <= MAX_REPORTS_PER_PERIOD
  }

  lemma {:induction false} UpdateStatesEffect(r: Reporter, states: seq<FirewallState>)
    requires r.shouldReport ==> r.periodReports < MAX_REPORTS_PER_PERIOD
    ensures var r' := UpdateStates(r, states);
            && r'.periodReports == r.periodReports && r'.periodEnd == r.periodEnd
            && (r'.shouldReport ==> r.periodReports < MAX_REPORTS_PER_PERIOD)
            && (NoFlip(r.state, states) ==>
                r'.reports == r.reports && r'.shouldReport == r.shouldReport && !Flips(r.state, r'.state))
            && (r'.shouldReport && !NoFlip(r.state, states) ==> r'.reports == 0)
    decreases |states|
  {
    if states != [] {
      UpdateStatesEffect(UpdateFirewallState(r, states[0]), states[1..]);
    }
  }

  lemma {:induction false} AtMostEightPerPeriod(r: Reporter, xs: seq<Execution>)
    requires Valid(r) && SamePeriod(r, xs)
    ensures ReportCount(r, xs) + r.periodReports <= MAX_REPORTS_PER_PERIOD
    ensures Valid(After(r, xs))
    decreases |xs|
  {
    if xs != [] {
      UpdateStatesEffect(UpdateReportingState(r, xs[0]), xs[0].states);
      AtMostEightPerPeriod(Execute(r, xs[0]), xs[1..]);
    }
  }

  lemma {:induction false} ExecuteKeepsValid(r: Reporter, x: Execution)
    requires Valid(r)
    ensures Valid(Execute(r, x))
    ensures Reports(r, x) ==> Execute(r, x).reports >= 1 && Execute(r, x).periodReports >= 1
  {
    UpdateStatesEffect(UpdateReportingState(r, x), x.states);
  }

  /** At most eight executions report in a reporting period, however often the state flips; the first
      execution of the window may be the one that starts the period. */
  lemma {:induction false} PeriodHasAtMostEightReports(r: Reporter, first: Execution, xs: seq<Execution>)
    requires Valid(r) && SamePeriod(Execute(r, first), xs)
    ensures ReportCount(r, [first] + xs) <= MAX_REPORTS_PER_PERIOD
  {
    ExecuteKeepsValid(r, first);
    AtMostEightPerPeriod(Execute(r, first), xs);
    assert ([first] + xs)[1..] == xs;
  }

  lemma {:induction false} StretchReports(r: Reporter, xs: seq<Execution>)
    requires Valid(r) && SamePeriod(r, xs) && SameStretch(r, xs)
    ensures ReportCount(r, xs) == 0 || ReportCount(r, xs) + r.reports <= Limit(r.state)
    decreases |xs|
  {
    if xs != [] {
      UpdateStatesEffect(UpdateReportingState(r, xs[0]), xs[0].states);
      StretchReports(Execute(r, xs[0]), xs[1..]);
    }
  }

  /** Within a period, a stretch opened by any execution, even one that flips back and forth, has at
      most one report while the firewall is OK and at most three while it is not. */
  lemma {:induction false} StretchHasFewReports(r: Reporter, first: Execution, xs: seq<Execution>)
    requires Valid(r) && SamePeriod(Execute(r, first), xs) && SameStretch(Execute(r, first), xs)
    ensures ReportCount(r, [first] + xs) <= Limit(Execute(r, first).state)
  {
    ExecuteKeepsValid(r, first);
    StretchReports(Execute(r, first), xs);
    assert ([first] + xs)[1..] == xs;
  }

  /** Every state of a run of the agent is within the period limit. */
  lemma {:induction false} RunStaysValid(r: Reporter, xs: seq<Execution>)
    requires Valid(r)
    ensures Valid(After(r, xs))
    decreases |xs|
  {
    if xs != [] {
      ExecuteKeepsValid(r, xs[0]);
      RunStaysValid(Execute(r, xs[0]), xs[1..]);
    }
  }

  // ----- Runs of the agent -----

  /** The reporter as the agent creates it. */
  function Created(now: int): Reporter {
    Reporter(OK, 0, 0, now + REPORTING_PERIOD, true)
  }

  /** In every run of the agent, from its start: a window of executions within one reporting period, which its first
      execution may start, has at most eight reports, however often the state flips. */
  lemma {:induction false} RunReportsAtMostEightPerPeriod(now: int, before: seq<Execution>, first: Execution,
                                                          xs: seq<Execution>)
    requires SamePeriod(Execute(After(Created(now), before), first), xs)
    ensures ReportCount(After(Created(now), before), [first] + xs) <= MAX_REPORTS_PER_PERIOD
  {
    RunStaysValid(Created(now), before);
    PeriodHasAtMostEightReports(After(Created(now), before), first, xs);
  }

  /** And a stretch within a period, opened by any execution, has at most one report while the firewall is OK and at
      most three while it is not. */
  lemma {:induction false} RunReportsFewPerStretch(now: int, before: seq<Execution>, first: Execution,
                                                   xs: seq<Execution>)
    requires SamePeriod(Execute(After(Created(now), before), first), xs)
    requires SameStretch(Execute(After(Created(now), before), first), xs)
    ensures ReportCount(After(Created(now), before), [first] + xs)
         <= Limit(Execute(After(Created(now), before), first).state)
  {
    RunStaysValid(Created(now), before);
    StretchHasFewReports(After(Created(now), before), first, xs);
  }
}
