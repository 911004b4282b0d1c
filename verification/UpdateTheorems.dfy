/** What the update protocol guarantees at an upgrade exit and across restarts. */
module UpdateTheorems {
  import opened Common
  import opened GuestAgents
  import opened UpdateProtocol
  import opened Sorting

  // ----- Preparing candidates -----

  /** Neither the directory nor the download offers a manifest file for this version. */
  predicate Unusable(disk: Disk, v: Version, download: Download) {
    (v !in disk || disk[v].manifest.Missing?) && (download.Fails? || download == Unzipped(Missing))
  }

  function Attempts(disk: Disk, v: Version): nat {
    if v in disk then disk[v].attempts else 0
  }

  /** `after` is `before` with the directory of `agent` prepared; other directories may only
      have been dropped, and only if they were not available. */
  ghost predicate PreparedFrom(before: Disk, after: Disk, agent: GuestAgent, download: Download) {
    var v := agent.version;
    && agent.attempts == Attempts(before, v)
    && (v in after <==> PackageLoads(before, v, download))
    && (v in after ==> after[v].manifest.Loadable? && after[v].attempts == agent.attempts)
    && forall w :: w != v ==>
         && (w in after ==> w in before && after[w] == before[w])
         && (Available(before, w) ==> w in after)
  }

  ghost predicate OnlyDrops(before: Disk, after: Disk) {
    forall w :: w in after ==> w in before && after[w] == before[w]
  }

  lemma {:induction false} PrepareFirstPicks(disk: Disk, candidates: seq<Version>, env: RunEnv)
    ensures var (after, r) := PrepareFirst(disk, candidates, env);
            match r
            case Ok(None) => candidates == [] && after == disk
            case Ok(Some(agent)) =>
              && PreparedFrom(disk, after, agent, FetchPackage(env, agent.version))
              && exists k :: 0 <= k < |candidates| && candidates[k] == agent.version
                   && !Unusable(disk, candidates[k], FetchPackage(env, candidates[k]))
                   && forall j :: 0 <= j < k ==> Unusable(disk, candidates[j], FetchPackage(env, candidates[j]))
            case Err(_) =>
              && OnlyDrops(disk, after)
              && forall j :: 0 <= j < |candidates| ==> Unusable(disk, candidates[j], FetchPackage(env, candidates[j]))
    decreases |candidates|
  {
    if candidates != [] {
      var v := candidates[0];
      var (next, r) := Prepare(disk, v, FetchPackage(env, v));
      if r.Ok? {
        assert candidates[0] == r.value.version;
      } else if |candidates| > 1 {
        PrepareFirstPicks(next, candidates[1..], env);
        var rest := PrepareFirst(next, candidates[1..], env).1;
        forall w ensures Unusable(next, w, FetchPackage(env, w)) == Unusable(disk, w, FetchPackage(env, w)) {}
        if rest.Ok? {
          var k :| 0 <= k < |candidates| - 1 && candidates[1..][k] == rest.value.value.version
                   && !Unusable(next, candidates[1..][k], FetchPackage(env, candidates[1..][k]))
                   && forall j :: 0 <= j < k ==>
                       Unusable(next, candidates[1..][j], FetchPackage(env, candidates[1..][j]));
          assert candidates[k + 1] == rest.value.value.version;
        } else {
          forall j | 0 <= j < |candidates| ensures Unusable(disk, candidates[j], FetchPackage(env, candidates[j])) {
            assert j > 0 ==> candidates[j] == candidates[1..][j - 1];
          }
        }
      }
    }
  }

  // ----- The candidate list of self-update -----

  ghost predicate Descending(vs: seq<Version>) {
    forall i, j :: 0 <= i < j < |vs| ==> vs[i] >= vs[j]
  }

  lemma {:induction false} DescendingCons(v: Version, vs: seq<Version>)
    requires Descending(vs) && forall x :: x in vs ==> v >= x
    ensures Descending([v] + vs)
  {
    forall i, j | 0 <= i < j < |vs| + 1 ensures ([v] + vs)[i] >= ([v] + vs)[j] {
      assert vs[j - 1] in vs;
    }
  }

  lemma {:induction false} AboveSelects(vs: seq<Version>, current: Version)
    requires Descending(vs)
    ensures Descending(Above(vs, current))
    ensures forall x :: x in Above(vs, current) <==> x in vs && x > current
  {
    if vs != [] {
      AboveSelects(vs[1..], current);
      assert vs == [vs[0]] + vs[1..];
      if vs[0] > current {
        DescendingCons(vs[0], Above(vs[1..], current));
      }
    }
  }

  /** The candidates tried by self-update, highest first, are the manifest versions above the current one. */
  lemma {:induction false} CandidatesAreSound(manifest: seq<Version>, current: Version)
    ensures var cs := Above(SortedDescending(manifest), current);
            Descending(cs) && forall x :: x in cs <==> x in manifest && x > current
  {
    SortIsSound(Negated, manifest, 0);
    assert Descending(SortedDescending(manifest)) by {
      var sorted := SortedDescending(manifest);
      forall i, j | 0 <= i < j < |sorted| ensures sorted[i] >= sorted[j] {
        assert Negated(sorted[i]) <= Negated(sorted[j]);
      }
    }
    AboveSelects(SortedDescending(manifest), current);
    forall x ensures x in SortedDescending(manifest) <==> x in manifest {
      assert x in multiset(manifest) <==> x in manifest;
      assert x in multiset(SortedDescending(manifest)) <==> x in SortedDescending(manifest);
    }
  }

  // ----- Upgrade exits -----

  /** The state in which a run reaches the attempt check, and the agent it got there with. */
  ghost predicate ReadyToFinish(s: State, gs: GoalState, env: RunEnv, s1: State, agent: GuestAgent) {
    && env.autoUpdate && gs.family.Some?
    && PreparedFrom(s.disk, s1.disk, agent, FetchPackage(env, agent.version))
    && s1.initialMarker == s.initialMarker
    && match SwitchUpdater(s, gs.family.value, gs.updated, env.gaVersioning)
       case Ok(s0) => s1.updater.RsmUpdater? == s0.updater.RsmUpdater? && s1.rsmMarker == s0.rsmMarker
       case Err(_) => false
  }

  /** Why the target was chosen, in terms of the state before the run. */
  ghost predicate EligibleTarget(c: Config, s: State, f: Family, updated: bool, env: RunEnv, mode: Updater, v: Version)
  {
    !Unusable(s.disk, v, FetchPackage(env, v)) &&
    match mode
    case SelfUpdater(_, _) =>
      && f.manifest.Some? && v in f.manifest.value && v > c.current
      && forall w :: w in f.manifest.value && w > v ==> Unusable(s.disk, w, FetchPackage(env, w))
    case RsmUpdater(_) =>
      && updated && f.versionFromRsm == Some(true) && v == VersionOrZero(f.version)
      && v != c.current && v >= c.daemon
      && mode.cachedManifest.Some? && v in mode.cachedManifest.value
      && (v < c.current ==> f.fromVersion == Some(c.current))
  }

  /** What a retrieval may do: drop unusable directories, or prepare an eligible agent. */
  ghost predicate RetrievalIsSound(c: Config, s: State, f: Family, env: RunEnv,
                                   s1: State, r: Result<Option<GuestAgent>, UpdateError>)
  {
    && s1.(disk := s.disk, updater := s.updater) == s
    && s1.updater.RsmUpdater? == s.updater.RsmUpdater?
    && if r.Ok? && r.value.Some? then
         && PreparedFrom(s.disk, s1.disk, r.value.value, FetchPackage(env, r.value.value.version))
         && EligibleTarget(c, s, f, true, env, s1.updater, r.value.value.version)
       else OnlyDrops(s.disk, s1.disk)
  }

  lemma {:induction false} HigherCandidatesFailed(disk: Disk, cs: seq<Version>, k: nat, env: RunEnv)
    requires Descending(cs) && k < |cs|
    requires forall j :: 0 <= j < k ==> Unusable(disk, cs[j], FetchPackage(env, cs[j]))
    ensures forall w :: w in cs && w > cs[k] ==> Unusable(disk, w, FetchPackage(env, w))
  {
    forall w | w in cs && w > cs[k]
      ensures Unusable(disk, w, FetchPackage(env, w))
    {
      var j :| 0 <= j < |cs| && cs[j] == w;
      assert j < k;
    }
  }

  lemma {:induction false} FirstCandidateIsEligible(c: Config, s: State, f: Family, env: RunEnv)
    requires s.updater.SelfUpdater? && f.manifest.Some?
    ensures var (disk, r) := PrepareFirst(s.disk, Above(SortedDescending(f.manifest.value), c.current), env);
            RetrievalIsSound(c, s, f, env, s.(disk := disk), r)
  {
    var cs := Above(SortedDescending(f.manifest.value), c.current);
    var r := PrepareFirst(s.disk, cs, env).1;
    CandidatesAreSound(f.manifest.value, c.current);
    PrepareFirstPicks(s.disk, cs, env);
    if r.Ok? && r.value.Some? {
      var v := r.value.value.version;
      var k :| 0 <= k < |cs| && cs[k] == v && !Unusable(s.disk, cs[k], FetchPackage(env, cs[k]))
               && forall j :: 0 <= j < k ==> Unusable(s.disk, cs[j], FetchPackage(env, cs[j]));
      HigherCandidatesFailed(s.disk, cs, k, env);
      assert v in cs;
    }
  }

  lemma {:induction false} RetrieveSelfIsSound(c: Config, s: State, f: Family, env: RunEnv)
    requires s.updater.SelfUpdater?
    ensures var (s1, r) := RetrieveSelf(c, s, f, env); RetrievalIsSound(c, s, f, env, s1, r)
  {
    if f.manifest.Some? {
      FirstCandidateIsEligible(c, s, f, env);
    }
  }

  lemma {:induction false} RetrieveRsmIsSound(c: Config, s: State, f: Family, env: RunEnv)
    requires s.updater.RsmUpdater?
    ensures var (s1, r) := RetrieveRsm(c, s, f, env); RetrievalIsSound(c, s, f, env, s1, r)
  {
  }

  lemma {:induction false} AttemptCases(c: Config, s: State, f: Family, updated: bool, env: RunEnv)
    returns (s1: State, agent: Option<GuestAgent>)
    ensures s1.(disk := s.disk, updater := s.updater) == s && s1.updater.RsmUpdater? == s.updater.RsmUpdater?
    ensures var (s', out) := Attempt(c, s, f, updated, env);
            match agent
            case None => !out.Exit? && OnlyDrops(s.disk, s'.disk) && s'.(lastError := s1.lastError) == s1
            case Some(a) =>
              && PreparedFrom(s.disk, s1.disk, a, FetchPackage(env, a.version))
              && EligibleTarget(c, s, f, updated, env, s1.updater, a.version)
              && (s', out) == Finish(c, s1, a, env)
  {
    if s.updater.SelfUpdater? && ManifestDownloadDue(s.updater, env.now, env.manifestFrequency) {
      var due := s.(updater := s.updater.(lastManifestDownload := Some(env.now)));
      RetrieveSelfIsSound(c, due, f, env);
      var (s2, r) := RetrieveSelf(c, due, f, env);
      s1, agent := s2, if r.Ok? then r.value else None;
    } else if s.updater.RsmUpdater? && updated {
      RetrieveRsmIsSound(c, s, f, env);
      var (s2, r) := RetrieveRsm(c, s, f, env);
      s1, agent := s2, if r.Ok? then r.value else None;
    } else {
      s1, agent := s, None;
    }
  }

  /** Every run either prepares nothing and at most drops unusable directories, or reaches the
      attempt check with an eligible, prepared agent. */
  lemma {:induction false} RunCases(c: Config, s: State, gs: GoalState, env: RunEnv)
    returns (s1: State, agent: Option<GuestAgent>)
    ensures var (s', out) := Run(c, s, gs, env);
            match agent
            case None => !out.Exit? && OnlyDrops(s.disk, s'.disk)
            case Some(a) =>
              && ReadyToFinish(s, gs, env, s1, a)
              && EligibleTarget(c, s, gs.family.value, gs.updated, env, s1.updater, a.version)
              && out == Finish(c, s1, a, env).1 && s' == Finish(c, s1, a, env).0.(initialMarker := true)
  {
    s1, agent := s, None;
    if env.autoUpdate && gs.family.Some? {
      var f := gs.family.value;
      var switched := SwitchUpdater(if gs.updated then s.(lastError := None) else s, f, gs.updated, env.gaVersioning);
      if switched.Ok? {
        s1, agent := AttemptCases(c, switched.value, f, gs.updated, env);
      }
    }
  }

  /** Which agents are available after the last stage of a run that exits. */
  lemma {:induction false} AvailableAfterFinish(c: Config, s1: State, agent: GuestAgent, env: RunEnv, w: Version)
    requires Finish(c, s1, agent, env).1.Exit?
    ensures var disk := Finish(c, s1, agent, env).0.disk;
            Available(disk, w) <==>
              if w == agent.version then w in s1.disk && s1.disk[w].manifest.Loadable?
              else Available(s1.disk, w) &&
                   if w == c.current then agent.version > w || !env.blacklistSaved else w in env.stuck
  {
  }

  /** At an upgrade exit the target is the highest available agent exactly when its package's
      manifest loads, a downgrade manages to blacklist a running version that is still available,
      and no directory that resisted purging holds a higher available agent. */
  lemma {:induction false} ExitTargetIsHighestAvailable(c: Config, s: State, gs: GoalState, env: RunEnv)
    requires Run(c, s, gs, env).1.Exit?
    ensures var v := Run(c, s, gs, env).1.target;
            IsHighestAvailable(Run(c, s, gs, env).0.disk, v) <==>
              && PackageLoads(s.disk, v, FetchPackage(env, v))
              && (v < c.current && Available(s.disk, c.current) ==> env.blacklistSaved)
              && (forall w: Version :: w in env.stuck && w != c.current && Available(s.disk, w) ==> w <= v)
  {
    var s1, prepared := RunCases(c, s, gs, env);
    var agent := prepared.value;
    var v := agent.version;
    var last := Run(c, s, gs, env).0.disk;
    AvailableAfterFinish(c, s1, agent, env, v);
    forall w: Version | w != v
      ensures Available(last, w) <==>
                Available(s.disk, w) && if w == c.current then v > w || !env.blacklistSaved else w in env.stuck
    {
      AvailableAfterFinish(c, s1, agent, env, w);
      assert Available(s1.disk, w) <==> Available(s.disk, w);
    }
  }

  /** A target that is the highest available agent is the version the daemon launches next. */
  lemma {:induction false} DaemonLaunchesTarget(c: Config, s: State, gs: GoalState, env: RunEnv)
    requires Run(c, s, gs, env).1.Exit? && c.current >= c.daemon
    requires IsHighestAvailable(Run(c, s, gs, env).0.disk, Run(c, s, gs, env).1.target)
    ensures DaemonLaunches(c, Run(c, s, gs, env).0.disk, Run(c, s, gs, env).1.target)
  {
    var _, _ := RunCases(c, s, gs, env);
  }

  /** Self-update exits to the highest manifest version above the current one that can be prepared;
      RSM exits only to the requested version, under the conditions for upgrades and downgrades. */
  lemma {:induction false} ExitTargetIsEligible(c: Config, s: State, gs: GoalState, env: RunEnv)
    requires Run(c, s, gs, env).1.Exit?
    ensures var (s', out) := Run(c, s, gs, env);
            gs.family.Some? && EligibleTarget(c, s, gs.family.value, gs.updated, env, s'.updater, out.target)
  {
    var _, _ := RunCases(c, s, gs, env);
  }

  /** An RSM updater keeps the manifest it fetched first: a permitted request is turned down for
      want of a package exactly when that manifest lacks the version, whatever the goal state's
      own manifest offers. */
  lemma {:induction false} RsmUsesItsFirstManifest(c: Config, s: State, gs: GoalState, env: RunEnv)
    requires s.updater.RsmUpdater? && s.updater.cachedManifest.Some?
    requires env.autoUpdate && gs.updated && gs.family.Some?
    requires SwitchUpdater(s, gs.family.value, true, env.gaVersioning) == Ok(s)
    requires RsmVersionAllowed(c, gs.family.value) == Ok(true)
    ensures Run(c, s, gs, env).1 == Failed(NoMatchingPackage) <==>
              VersionOrZero(gs.family.value.version) !in s.updater.cachedManifest.value
  {
    var f := gs.family.value;
    var s0 := s.(lastError := None);
    assert SwitchUpdater(s0, f, true, env.gaVersioning) == Ok(s0);
    var r := RetrieveRsm(c, s0, f, env).1;
    assert r.Err? ==> r.error == NoMatchingPackage || r.error == PackageUnusable;
  }

  // ----- The timing gate of self-update -----

  /** A check of the gate: the time, and the delay that would be drawn if one is needed. */
  datatype GateCheck = GateCheck(time: int, delay: nat)

  function AfterChecks(u: Updater, checks: seq<GateCheck>): (r: Updater)
    requires u.SelfUpdater?
    ensures r.SelfUpdater?
    decreases |checks|
  {
    if checks == [] then u
    else
      var last := checks[|checks| - 1];
      SelfUpdateGate(AfterChecks(u, checks[..|checks| - 1]), last.time, last.delay).0
  }

  lemma {:induction false} GateKeepsItsTime(u: Updater, checks: seq<GateCheck>, due: int)
    requires u.SelfUpdater? && u.nextUpdateTime.None? && checks != [] && due == checks[0].time + checks[0].delay
    requires forall i :: 0 <= i < |checks| ==> checks[i].time < due
    ensures AfterChecks(u, checks).nextUpdateTime == Some(due)
    decreases |checks|
  {
    var init := checks[..|checks| - 1];
    if init == [] {
      assert AfterChecks(u, init) == u;
    } else {
      GateKeepsItsTime(u, init, due);
    }
  }

  /** The delay drawn at the first check decides: as long as the gate stayed closed, however many draws
      later checks could have made, it opens exactly at a check not before that time. */
  lemma {:induction false} GateOpensExactlyWhenDue(u: Updater, checks: seq<GateCheck>, last: GateCheck)
    requires u.SelfUpdater? && u.nextUpdateTime.None? && checks != []
    requires forall i :: 0 <= i < |checks| ==> checks[i].time < checks[0].time + checks[0].delay
    ensures SelfUpdateGate(AfterChecks(u, checks), last.time, last.delay).1
       <==> last.time >= checks[0].time + checks[0].delay
  {
    GateKeepsItsTime(u, checks, checks[0].time + checks[0].delay);
  }

  // ----- Whole histories of runs, restarts and failures reported by the daemon -----

  datatype Event =
    | RunEvent(c: Config, gs: GoalState, env: RunEnv)
    | RestartEvent
    | FailureEvent(version: Version, fatal: bool)

  /** GuestAgent.mark_failure creates the directory when it is missing. */
  function MarkFailure(disk: Disk, v: Version, fatal: bool): Disk {
    var dir := if v in disk then disk[v] else AgentDir(Missing, NO_ERROR, 0);
    disk[v := dir.(error := AgentError(dir.error.failureCount + 1, fatal))]
  }

  /** A restart passes through the daemon, which loads every agent directory. */
  function Step(s: State, e: Event): State {
    match e
    case RunEvent(c, gs, env) => Run(c, s, gs, env).0
    case RestartEvent => Restart(s.(disk := LoadAll(s.disk)))
    case FailureEvent(v, fatal) => s.(disk := MarkFailure(s.disk, v, fatal))
  }

  function StateAfter(s: State, events: seq<Event>): State
    decreases |events|
  {
    if events == [] then s else StateAfter(Step(s, events[0]), events[1..])
  }

  predicate ExitsTo(s: State, e: Event, v: Version) {
    e.RunEvent? && Run(e.c, s, e.gs, e.env).1 == Exit(v)
  }

  function Exits(s: State, events: seq<Event>, v: Version): nat
    decreases |events|
  {
    if events == [] then 0
    else (if ExitsTo(s, events[0], v) then 1 else 0) + Exits(Step(s, events[0]), events[1..], v)
  }

  /** The directory of v is there after every event, and every attempt count is saved. */
  predicate Survives(s: State, events: seq<Event>, v: Version)
    decreases |events|
  {
    events == [] ||
    (v in Step(s, events[0]).disk && (events[0].RunEvent? ==> events[0].env.countSaved)
     && Survives(Step(s, events[0]), events[1..], v))
  }

  lemma {:induction false} RunCountsItsExit(c: Config, s: State, gs: GoalState, env: RunEnv, v: Version)
    requires v in Run(c, s, gs, env).0.disk && env.countSaved
    ensures var (s', out) := Run(c, s, gs, env);
            if out == Exit(v)
            then Attempts(s.disk, v) < MAX_UPDATE_ATTEMPTS && Attempts(s'.disk, v) == Attempts(s.disk, v) + 1
            else Attempts(s'.disk, v) == Attempts(s.disk, v)
  {
    var _, _ := RunCases(c, s, gs, env);
  }

  /** Across any history of runs and restarts, at most three exits target a version while its
      directory survives and its attempt count is saved; fewer if attempts were already recorded. */
  lemma {:induction false} AtMostThreeExits(s: State, events: seq<Event>, v: Version)
    requires Survives(s, events, v)
    ensures Exits(s, events, v) == 0 || Exits(s, events, v) + Attempts(s.disk, v) <= MAX_UPDATE_ATTEMPTS
    decreases |events|
  {
    if events != [] {
      if events[0].RunEvent? {
        RunCountsItsExit(events[0].c, s, events[0].gs, events[0].env, v);
      }
      AtMostThreeExits(Step(s, events[0]), events[1..], v);
    }
  }

  /** The exit itself costs the directory, and with it the counter, exactly when the manifest does not load. */
  lemma {:induction false} ExitKeepsDirectoryExactlyWhen(c: Config, s: State, gs: GoalState, env: RunEnv)
    requires Run(c, s, gs, env).1.Exit?
    ensures var v := Run(c, s, gs, env).1.target;
            v in Run(c, s, gs, env).0.disk <==> PackageLoads(s.disk, v, FetchPackage(env, v))
  {
    var _, _ := RunCases(c, s, gs, env);
  }

  // The limit does not hold for a package whose manifest is malformed: loading it removes the
  // directory and with it the counter, and the run exits all the same.

  const BROKEN: Version := 9
  const LOOP_FAMILY := Family(Some(true), Some(true), Some(BROKEN), None, Some([BROKEN]))
  const LOOP_ENV := RunEnv(true, true, 0, 0, 0, 0, map[BROKEN := Unzipped(Malformed)], true, true, true, {})
  const LOOP_RUN := RunEvent(Config(1, 1), GoalState(true, Some(LOOP_FAMILY)), LOOP_ENV)
  const LOOP_STATE := State(map[], true, true, FRESH_RSM_UPDATER, None)

  function LoopEvents(n: nat): seq<Event> {
    if n == 0 then [] else [LOOP_RUN, RestartEvent] + LoopEvents(n - 1)
  }

  lemma {:induction false} MalformedPackageExitsForever(n: nat)
    ensures Exits(LOOP_STATE, LoopEvents(n), BROKEN) == n
  {
    if n > 0 {
      var events := LoopEvents(n);
      assert events[0] == LOOP_RUN && events[1..][0] == RestartEvent && events[1..][1..] == LoopEvents(n - 1);
      var after := Step(LOOP_STATE, LOOP_RUN);
      assert ExitsTo(LOOP_STATE, LOOP_RUN, BROKEN);
      assert Step(after, RestartEvent) == LOOP_STATE;
      MalformedPackageExitsForever(n - 1);
    }
  }

  // ----- Update mode and marker files -----

  /** The RSM marker stands for the RSM updater and is only ever written after the initial update. */
  ghost predicate Coherent(s: State) {
    && (s.rsmMarker <==> s.updater.RsmUpdater?)
    && (s.rsmMarker ==> s.initialMarker)
  }

  const CLEAN_START := State(map[], false, false, FRESH_SELF_UPDATER, None)

  lemma {:induction false} AttemptKeepsMode(c: Config, s: State, f: Family, updated: bool, env: RunEnv)
    ensures var s' := Attempt(c, s, f, updated, env).0;
            && s'.updater.RsmUpdater? == s.updater.RsmUpdater?
            && s'.rsmMarker == s.rsmMarker && s'.initialMarker == s.initialMarker
  {
    var s1, agent := AttemptCases(c, s, f, updated, env);
  }

  lemma {:induction false} RunKeepsModeCoherent(c: Config, s: State, gs: GoalState, env: RunEnv)
    requires Coherent(s)
    ensures var s' := Run(c, s, gs, env).0;
            && Coherent(s') && s'.initialMarker
            && (!gs.updated || !s.initialMarker ==> s'.updater.RsmUpdater? == s.updater.RsmUpdater?)
  {
    if env.autoUpdate && gs.family.Some? {
      var f := gs.family.value;
      var switched := SwitchUpdater(if gs.updated then s.(lastError := None) else s, f, gs.updated, env.gaVersioning);
      if switched.Ok? {
        AttemptKeepsMode(c, switched.value, f, gs.updated, env);
      }
    }
  }

  /** Every step keeps the markers coherent; restarts restore the mode; a run changes the mode
      only on a new goal state after the initial update, and records the initial update. */
  lemma {:induction false} StepKeepsModeCoherent(s: State, e: Event)
    requires Coherent(s)
    ensures Coherent(Step(s, e))
    ensures s.initialMarker || e.RunEvent? ==> Step(s, e).initialMarker
    ensures !e.RunEvent? || !e.gs.updated || !s.initialMarker ==>
              Step(s, e).updater.RsmUpdater? == s.updater.RsmUpdater?
  {
    if e.RunEvent? {
      RunKeepsModeCoherent(e.c, s, e.gs, e.env);
    }
  }

  lemma {:induction false} ModeIsCoherentForever(s: State, events: seq<Event>)
    requires Coherent(s)
    ensures Coherent(StateAfter(s, events))
    decreases |events|
  {
    if events != [] {
      StepKeepsModeCoherent(s, events[0]);
      ModeIsCoherentForever(Step(s, events[0]), events[1..]);
    }
  }

  lemma {:induction false} CleanStartIsCoherent(events: seq<Event>)
    ensures Coherent(StateAfter(CLEAN_START, events))
  {
    ModeIsCoherentForever(CLEAN_START, events);
  }
}
