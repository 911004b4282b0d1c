/** When an agent directory, and with it the count of update attempts, is dropped from the disk. */
module AgentSurvival {
  import opened Common
  import opened GuestAgents
  import opened UpdateProtocol
  import opened UpdateTheorems

  // ----- What a run prepares -----

  function Switched(s: State, gs: GoalState, env: RunEnv): Result<State, UpdateError>
    requires gs.family.Some?
  {
    SwitchUpdater(if gs.updated then s.(lastError := None) else s, gs.family.value, gs.updated, env.gaVersioning)
  }

  predicate RsmMode(s: State, gs: GoalState, env: RunEnv) {
    gs.family.Some? && Switched(s, gs, env).Ok? && Switched(s, gs, env).value.updater.RsmUpdater?
  }

  /** The versions self-update would try, in order; none when it is not time for it. */
  function SelfCandidates(c: Config, s: State, f: Family, env: RunEnv): seq<Version>
    requires s.updater.SelfUpdater?
  {
    if !ManifestDownloadDue(s.updater, env.now, env.manifestFrequency) || f.manifest.None? then []
    else
      var versions := SortedDescending(f.manifest.value);
      if (if versions == [] then 0 else versions[0]) <= c.current then []
      else if s.initialMarker && !SelfUpdateGate(s.updater, env.gateNow, env.delay).1 then []
      else Above(versions, c.current)
  }

  /** The version RSM asks for, if it may be used and the manifest in use has it. */
  function RsmCandidates(c: Config, s: State, f: Family, updated: bool): seq<Version>
    requires s.updater.RsmUpdater?
  {
    var manifest := if s.updater.cachedManifest.Some? then s.updater.cachedManifest else f.manifest;
    var v := VersionOrZero(f.version);
    if updated && RsmVersionAllowed(c, f) == Ok(true) && manifest.Some? && v in manifest.value then [v] else []
  }

  function Candidates(c: Config, s: State, gs: GoalState, env: RunEnv): seq<Version> {
    if !env.autoUpdate || gs.family.None? || Switched(s, gs, env).Err? then []
    else
      var s0 := Switched(s, gs, env).value;
      if s0.updater.SelfUpdater? then SelfCandidates(c, s0, gs.family.value, env)
      else RsmCandidates(c, s0, gs.family.value, gs.updated)
  }

  /** The candidates that are tried: up to the first that can be used. */
  function Tried(disk: Disk, cs: seq<Version>, env: RunEnv): seq<Version> {
    if cs == [] then []
    else if Unusable(disk, cs[0], FetchPackage(env, cs[0])) then [cs[0]] + Tried(disk, cs[1..], env)
    else [cs[0]]
  }

  function Target(disk: Disk, cs: seq<Version>, env: RunEnv): Option<Version> {
    if cs == [] then None
    else if Unusable(disk, cs[0], FetchPackage(env, cs[0])) then Target(disk, cs[1..], env)
    else Some(cs[0])
  }

  /** Trying a version removes its directory: there is no manifest and the package brings none that loads, or a
      malformed one is there; a download that fails may leave the directory alone. */
  predicate LostWhenTried(disk: Disk, v: Version, download: Download)
    requires v in disk
  {
    if disk[v].manifest.Missing? then download != Fails(false) && download != Unzipped(Loadable)
    else disk[v].manifest.Malformed?
  }

  lemma {:induction false} SameAfterFailure(disk: Disk, next: Disk, cs: seq<Version>, env: RunEnv)
    requires forall w: Version :: Unusable(next, w, FetchPackage(env, w)) == Unusable(disk, w, FetchPackage(env, w))
    ensures Tried(next, cs, env) == Tried(disk, cs, env) && Target(next, cs, env) == Target(disk, cs, env)
    decreases |cs|
  {
    if cs != [] {
      SameAfterFailure(disk, next, cs[1..], env);
    }
  }

  lemma {:induction false} NotReadded(disk: Disk, cs: seq<Version>, env: RunEnv, v: Version)
    requires v !in disk && (FetchPackage(env, v).Fails? || FetchPackage(env, v) == Unzipped(Missing))
    ensures v !in PrepareFirst(disk, cs, env).0
    decreases |cs|
  {
    if |cs| > 1 {
      NotReadded(Prepare(disk, cs[0], FetchPackage(env, cs[0])).0, cs[1..], env, v);
    }
  }

  /** What preparing candidates does to a directory, and which agent it gives. */
  lemma {:induction false} PrepareFirstLoses(disk: Disk, cs: seq<Version>, env: RunEnv, v: Version)
    requires v in disk
    ensures var (after, r) := PrepareFirst(disk, cs, env);
            && (v !in after <==> v in Tried(disk, cs, env) && LostWhenTried(disk, v, FetchPackage(env, v)))
            && (v in after && Target(disk, cs, env) != Some(v) ==> after[v] == disk[v])
    decreases |cs|
  {
    if cs != [] {
      var w := cs[0];
      var (next, r) := Prepare(disk, w, FetchPackage(env, w));
      if r.Err? {
        forall x: Version ensures Unusable(next, x, FetchPackage(env, x)) == Unusable(disk, x, FetchPackage(env, x)) {}
        SameAfterFailure(disk, next, cs[1..], env);
        if v in next {
          PrepareFirstLoses(next, cs[1..], env, v);
        } else {
          NotReadded(next, cs[1..], env, v);
        }
      }
    }
  }

  lemma {:induction false} TargetIsPrepared(disk: Disk, cs: seq<Version>, env: RunEnv)
    ensures var r := PrepareFirst(disk, cs, env).1;
            match Target(disk, cs, env)
            case None => r.Err? || r == Ok(None)
            case Some(v) => r.Ok? && r.value.Some? && r.value.value == GuestAgent(v, Attempts(disk, v))
    decreases |cs|
  {
    if cs != [] {
      var w := cs[0];
      var (next, r) := Prepare(disk, w, FetchPackage(env, w));
      if r.Err? {
        forall x: Version ensures Unusable(next, x, FetchPackage(env, x)) == Unusable(disk, x, FetchPackage(env, x)) {}
        SameAfterFailure(disk, next, cs[1..], env);
        TargetIsPrepared(next, cs[1..], env);
        TargetUnlike(disk, cs[1..], env, w);
      }
    }
  }

  /** A version that cannot be used is not the target. */
  lemma {:induction false} TargetUnlike(disk: Disk, cs: seq<Version>, env: RunEnv, w: Version)
    requires Unusable(disk, w, FetchPackage(env, w))
    ensures Target(disk, cs, env) != Some(w)
    decreases |cs|
  {
    if cs != [] {
      TargetUnlike(disk, cs[1..], env, w);
    }
  }

  // ----- A whole run -----

  /** The disk after the last stage of a run. */
  function FinishedDisk(c: Config, disk: Disk, agent: GuestAgent, env: RunEnv, rsm: bool): Disk {
    if agent.attempts >= MAX_UPDATE_ATTEMPTS || (agent.version in disk && !env.errorSaved) then disk
    else
      var kept := Purged(Cleared(disk, agent, env.countSaved), {c.current, agent.version}, env.stuck);
      if rsm && agent.version < c.current then Blacklist(LoadAll(kept), c.current, env.blacklistSaved) else kept
  }

  lemma {:induction false} SinglePrepare(disk: Disk, v: Version, env: RunEnv)
    ensures PrepareFirst(disk, [v], env).0 == Prepare(disk, v, FetchPackage(env, v)).0
    ensures var r, one := PrepareFirst(disk, [v], env).1, Prepare(disk, v, FetchPackage(env, v)).1;
            if one.Ok? then r == Ok(Some(one.value)) else r == Err(one.error)
  {
  }

  lemma {:induction false} SelfAttemptDisk(c: Config, s: State, f: Family, updated: bool, env: RunEnv)
    requires s.updater.SelfUpdater?
    ensures var (disk, r) := PrepareFirst(s.disk, SelfCandidates(c, s, f, env), env);
            Attempt(c, s, f, updated, env).0.disk ==
              if r.Ok? && r.value.Some? then FinishedDisk(c, disk, r.value.value, env, false) else disk
  {
  }

  lemma {:induction false} RsmAttemptDisk(c: Config, s: State, f: Family, updated: bool, env: RunEnv)
    requires s.updater.RsmUpdater?
    ensures var (disk, r) := PrepareFirst(s.disk, RsmCandidates(c, s, f, updated), env);
            Attempt(c, s, f, updated, env).0.disk ==
              if r.Ok? && r.value.Some? then FinishedDisk(c, disk, r.value.value, env, true) else disk
  {
    SinglePrepare(s.disk, VersionOrZero(f.version), env);
  }

  lemma {:induction false} RunDisk(c: Config, s: State, gs: GoalState, env: RunEnv)
    ensures var (disk, r) := PrepareFirst(s.disk, Candidates(c, s, gs, env), env);
            Run(c, s, gs, env).0.disk ==
              if r.Ok? && r.value.Some? then FinishedDisk(c, disk, r.value.value, env, RsmMode(s, gs, env)) else disk
  {
    if env.autoUpdate && gs.family.Some? && Switched(s, gs, env).Ok? {
      var s0 := Switched(s, gs, env).value;
      if s0.updater.SelfUpdater? {
        SelfAttemptDisk(c, s0, gs.family.value, gs.updated, env);
      } else {
        RsmAttemptDisk(c, s0, gs.family.value, gs.updated, env);
      }
    }
  }

  /** The target has attempts left and its cleared error, if it has a directory, can be saved: the disk is purged. */
  predicate Purges(disk: Disk, target: Version, env: RunEnv)
  {
    Attempts(disk, target) < MAX_UPDATE_ATTEMPTS
      && (PackageLoads(disk, target, FetchPackage(env, target)) ==> env.errorSaved)
  }

  /** The disk is purged for a target other than v and v is not the running version, or a downgrade loads all
      directories and v's manifest does not load. */
  predicate LostToTarget(c: Config, disk: Disk, v: Version, target: Version, env: RunEnv, rsm: bool)
    requires v in disk
  {
    && Purges(disk, target, env) && v != target
    && ((v != c.current && v !in env.stuck) || (rsm && target < c.current && !disk[v].manifest.Loadable?))
  }

  lemma {:induction false} FinishLoses(c: Config, disk: Disk, agent: GuestAgent, env: RunEnv, rsm: bool, v: Version)
    requires v in disk && (v == agent.version ==> disk[v].manifest.Loadable?)
    ensures v !in FinishedDisk(c, disk, agent, env, rsm) <==>
              && agent.attempts < MAX_UPDATE_ATTEMPTS && (agent.version in disk ==> env.errorSaved)
              && v != agent.version
              && ((v != c.current && v !in env.stuck)
                  || (rsm && agent.version < c.current && !disk[v].manifest.Loadable?))
  {
  }

  /** Exactly when a run drops a directory: its package is tried and does not load, or another version is installed and
      it is purged, or a downgrade finds its manifest does not load. */
  predicate RunLoses(c: Config, s: State, gs: GoalState, env: RunEnv, v: Version)
    requires v in s.disk
  {
    var cs := Candidates(c, s, gs, env);
    var target := Target(s.disk, cs, env);
    || (v in Tried(s.disk, cs, env) && LostWhenTried(s.disk, v, FetchPackage(env, v)))
    || (target.Some? && LostToTarget(c, s.disk, v, target.value, env, RsmMode(s, gs, env)))
  }

  lemma {:induction false} RunLosesExactlyWhen(c: Config, s: State, gs: GoalState, env: RunEnv, v: Version)
    requires v in s.disk
    ensures v !in Run(c, s, gs, env).0.disk <==> RunLoses(c, s, gs, env, v)
  {
    var cs := Candidates(c, s, gs, env);
    var (disk, r) := PrepareFirst(s.disk, cs, env);
    RunDisk(c, s, gs, env);
    PrepareFirstLoses(s.disk, cs, env, v);
    TargetIsPrepared(s.disk, cs, env);
    if r.Ok? && r.value.Some? {
      PrepareFirstPicks(s.disk, cs, env);
      if v in disk {
        FinishLoses(c, disk, r.value.value, env, RsmMode(s, gs, env), v);
      }
    }
  }

  // ----- Histories -----

  /** Exactly when an event drops a directory. */
  predicate EventLoses(s: State, e: Event, v: Version)
    requires v in s.disk
  {
    match e
    case RunEvent(c, gs, env) => RunLoses(c, s, gs, env, v)
    case RestartEvent => !s.disk[v].manifest.Loadable?
    case FailureEvent(_, _) => false
  }

  lemma {:induction false} EventLosesExactlyWhen(s: State, e: Event, v: Version)
    requires v in s.disk
    ensures v !in Step(s, e).disk <==> EventLoses(s, e, v)
  {
    if e.RunEvent? {
      RunLosesExactlyWhen(e.c, s, e.gs, e.env, v);
    }
  }

  /** No event of the history drops the directory, and every count is saved. */
  ghost predicate NothingLoses(s: State, events: seq<Event>, v: Version)
    requires v in s.disk
    decreases |events|
  {
    events == [] ||
    (!EventLoses(s, events[0], v) && (events[0].RunEvent? ==> events[0].env.countSaved)
     && (v in Step(s, events[0]).disk ==> NothingLoses(Step(s, events[0]), events[1..], v)))
  }

  lemma {:induction false} SurvivesExactlyWhen(s: State, events: seq<Event>, v: Version)
    requires v in s.disk
    ensures Survives(s, events, v) <==> NothingLoses(s, events, v)
    decreases |events|
  {
    if events != [] {
      EventLosesExactlyWhen(s, events[0], v);
      if v in Step(s, events[0]).disk {
        SurvivesExactlyWhen(Step(s, events[0]), events[1..], v);
      }
    }
  }

  /** The three-exit limit, for a directory that no event drops. */
  lemma {:induction false} LimitWhileNothingLoses(s: State, events: seq<Event>, v: Version)
    requires v in s.disk && NothingLoses(s, events, v)
    ensures Exits(s, events, v) == 0 || Exits(s, events, v) + Attempts(s.disk, v) <= MAX_UPDATE_ATTEMPTS
  {
    SurvivesExactlyWhen(s, events, v);
    AtMostThreeExits(s, events, v);
  }

  // ----- Purging resets the count -----

  /** Every package loads and everything works. */
  function GoodEnv(a: Version, b: Version, c: Version): RunEnv
  {
    RunEnv(true, true, 0, 0, 0, 0, map[a := Unzipped(Loadable), b := Unzipped(Loadable), c := Unzipped(Loadable)],
           true, true, true, {})
  }

  /** RSM asks the running version to move to another one of the three. */
  function RequestTo(current: Version, daemon: nat, target: Version, a: Version, b: Version, c: Version): Event {
    RunEvent(Config(current, daemon),
             GoalState(true, Some(Family(Some(true), Some(true), Some(target), Some(current), Some([a, b, c])))),
             GoodEnv(a, b, c))
  }

  /** In RSM mode after a restart, with no directories but those of two versions. */
  ghost predicate Between(s: State, prior: Version, current: Version) {
    s.updater == FRESH_RSM_UPDATER && s.rsmMarker && s.initialMarker && s.disk.Keys <= {prior, current}
  }

  lemma {:induction false} OneMove(s: State, prior: Version, current: Version, daemon: nat, target: Version, a: Version,
                                   b: Version, c: Version)
    requires Between(s, prior, current) && target != prior && target != current
    requires (target == a || target == b || target == c) && target >= daemon
    ensures ExitsTo(s, RequestTo(current, daemon, target, a, b, c), target)
    ensures Between(Step(Step(s, RequestTo(current, daemon, target, a, b, c)), RestartEvent), current, target)
  {
    var e := RequestTo(current, daemon, target, a, b, c);
    var f, env := e.gs.family.value, e.env;
    assert target in [a, b, c];
    assert FetchPackage(env, target) == Unzipped(Loadable);
    var s0 := s.(lastError := None);
    assert SwitchUpdater(s0, f, true, true) == Ok(s0);
    assert RsmVersionAllowed(e.c, f) == Ok(true);
    var (disk, r) := Prepare(s.disk, target, Unzipped(Loadable));
    assert r == Ok(GuestAgent(target, 0)) && disk.Keys == s.disk.Keys + {target};
  }

  /** One round: to a, on to b, on to c, with a restart after each. */
  function Round(a: Version, b: Version, c: Version, daemon: nat): seq<Event>
  {
    [RequestTo(c, daemon, a, a, b, c), RestartEvent, RequestTo(a, daemon, b, a, b, c), RestartEvent,
     RequestTo(b, daemon, c, a, b, c), RestartEvent]
  }

  function Rounds(n: nat, a: Version, b: Version, c: Version, daemon: nat): seq<Event> {
    if n == 0 then [] else Round(a, b, c, daemon) + Rounds(n - 1, a, b, c, daemon)
  }

  lemma {:induction false} TwoSteps(s: State, x: Event, y: Event, rest: seq<Event>, all: seq<Event>, v: Version)
    requires all == [x, y] + rest && y == RestartEvent
    ensures Exits(s, all, v) == (if ExitsTo(s, x, v) then 1 else 0) + Exits(Step(Step(s, x), y), rest, v)
  {
    assert all[0] == x && all[1..][0] == y && all[1..][1..] == rest;
  }

  lemma {:induction false} MoveAndCount(s: State, prior: Version, current: Version, daemon: nat, target: Version,
                                        a: Version, b: Version, c: Version, rest: seq<Event>, all: seq<Event>)
    returns (next: State)
    requires Between(s, prior, current) && target != prior && target != current
    requires (target == a || target == b || target == c) && target >= daemon
    requires all == [RequestTo(current, daemon, target, a, b, c), RestartEvent] + rest
    ensures Between(next, current, target) && Exits(s, all, a) == (if target == a then 1 else 0) + Exits(next, rest, a)
  {
    var e := RequestTo(current, daemon, target, a, b, c);
    OneMove(s, prior, current, daemon, target, a, b, c);
    next := Step(Step(s, e), RestartEvent);
    TwoSteps(s, e, RestartEvent, rest, all, a);
  }

  lemma {:induction false} OneRound(s: State, a: Version, b: Version, c: Version, daemon: nat, rest: seq<Event>)
    returns (next: State)
    requires Between(s, b, c) && a != b && a != c && b != c && a >= daemon && b >= daemon && c >= daemon
    ensures Between(next, b, c) && Exits(s, Round(a, b, c, daemon) + rest, a) == 1 + Exits(next, rest, a)
  {
    var third := [RequestTo(b, daemon, c, a, b, c), RestartEvent] + rest;
    var second := [RequestTo(a, daemon, b, a, b, c), RestartEvent] + third;
    var first := [RequestTo(c, daemon, a, a, b, c), RestartEvent] + second;
    assert Round(a, b, c, daemon) + rest == first;
    var s1 := MoveAndCount(s, b, c, daemon, a, a, b, c, second, first);
    var s2 := MoveAndCount(s1, c, a, daemon, b, a, b, c, third, second);
    next := MoveAndCount(s2, a, b, daemon, c, a, b, c, rest, third);
  }

  /** Three versions requested in turn: the purge before each exit takes the third directory and its count, so there are
      histories with any number of exits to a version although every package loads and every count is saved. */
  lemma {:induction false} PurgeCycleExitsForever(s: State, a: Version, b: Version, c: Version, daemon: nat, n: nat)
    requires Between(s, b, c) && a != b && a != c && b != c && a >= daemon && b >= daemon && c >= daemon
    ensures Exits(s, Rounds(n, a, b, c, daemon), a) == n
    decreases n
  {
    if n > 0 {
      var next := OneRound(s, a, b, c, daemon, Rounds(n - 1, a, b, c, daemon));
      PurgeCycleExitsForever(next, a, b, c, daemon, n - 1);
    }
  }
}
