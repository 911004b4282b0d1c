/** The agent update protocol as a function of the state kept between calls: the agent
    directories, the two marker files and the updater in use. One call of `Run` is one
    call of AgentUpdateHandler.run; everything outside the agent is in `RunEnv`. */
module UpdateProtocol {
  import opened Common
  import opened GuestAgents
  import opened Sorting

  datatype Updater =
    | SelfUpdater(lastManifestDownload: Option<int>, nextUpdateTime: Option<int>)
    | RsmUpdater(cachedManifest: Option<seq<Version>>)

  const FRESH_SELF_UPDATER := SelfUpdater(None, None)
  const FRESH_RSM_UPDATER := RsmUpdater(None)

  /** The agent family of a goal state; `manifest` is None when fetching it fails. */
  datatype Family = Family(vmEnabledForRsm: Option<bool>, versionFromRsm: Option<bool>,
                           version: Option<Version>, fromVersion: Option<Version>,
                           manifest: Option<seq<Version>>)

  datatype GoalState = GoalState(updated: bool, family: Option<Family>)

  /** Configuration, clock, random draw and outcome of every external action of one call. */
  datatype RunEnv = RunEnv(autoUpdate: bool, gaVersioning: bool,
                           now: int, manifestFrequency: int, gateNow: int, delay: nat,
                           downloads: map<Version, Download>,
                           errorSaved: bool, countSaved: bool, blacklistSaved: bool,
                           stuck: set<Version>)

  /** The running version and the version installed with the daemon. */
  datatype Config = Config(current: Version, daemon: nat)

  datatype State = State(disk: Disk, rsmMarker: bool, initialMarker: bool,
                         updater: Updater, lastError: Option<UpdateError>)

  datatype Outcome = Exit(target: Version) | NoUpdate | Failed(error: UpdateError)

  function FetchPackage(env: RunEnv, v: Version): Download {
    if v in env.downloads then env.downloads[v] else Fails(false)
  }

  function VersionOrZero(v: Option<Version>): Version {
    if v.Some? then v.value else 0
  }

  // ----- Choosing the updater -----

  /** AgentUpdateHandler.__init__ */
  function Restart(s: State): State {
    s.(updater := if !s.rsmMarker || !s.initialMarker then FRESH_SELF_UPDATER else FRESH_RSM_UPDATER,
       lastError := None)
  }

  function IsRsmUpdateEnabled(u: Updater, f: Family, updated: bool, gaVersioning: bool): Result<bool, UpdateError> {
    match u
    case SelfUpdater(_, _) =>
      if updated && gaVersioning && f.vmEnabledForRsm == Some(true) then
        if f.versionFromRsm.None? || f.version.None? then Err(InvalidGoalState) else Ok(true)
      else Ok(false)
    case RsmUpdater(_) =>
      if !updated then Ok(true)
      else if !gaVersioning then Ok(false)
      else if f.vmEnabledForRsm.None? then Err(InvalidGoalState)
      else if !f.vmEnabledForRsm.value then Ok(false)
      else if f.versionFromRsm.None? || f.version.None? then Err(InvalidGoalState)
      else Ok(true)
  }

  /** The mode switch; it is skipped altogether during the initial update. */
  function SwitchUpdater(s: State, f: Family, updated: bool, gaVersioning: bool): Result<State, UpdateError> {
    if !s.initialMarker then Ok(s)
    else match IsRsmUpdateEnabled(s.updater, f, updated, gaVersioning)
      case Err(e) => Err(e)
      case Ok(enabled) =>
        if !enabled && s.updater.RsmUpdater? then Ok(s.(updater := FRESH_SELF_UPDATER, rsmMarker := false))
        else if enabled && s.updater.SelfUpdater? then Ok(s.(updater := FRESH_RSM_UPDATER, rsmMarker := true))
        else Ok(s)
  }

  // ----- Retrieving and preparing the target -----

  function Negated(v: Version): int {
    -v
  }

  function SortedDescending(vs: seq<Version>): seq<Version> {
    Sort(Negated, vs)
  }

  function Above(vs: seq<Version>, current: Version): seq<Version> {
    if vs == [] then []
    else (if vs[0] > current then [vs[0]] else []) + Above(vs[1..], current)
  }

  /** The timing gate of self-update: the next time is drawn once and kept until it is reached. */
  function SelfUpdateGate(u: Updater, now: int, delay: nat): (Updater, bool)
    requires u.SelfUpdater?
  {
    var next := if u.nextUpdateTime.None? then now + delay else u.nextUpdateTime.value;
    if next <= now then (u.(nextUpdateTime := None), true) else (u.(nextUpdateTime := Some(next)), false)
  }

  function ManifestDownloadDue(u: Updater, now: int, frequency: int): bool
    requires u.SelfUpdater?
  {
    u.lastManifestDownload.None? || u.lastManifestDownload.value + frequency <= now
  }

  /** The first candidate that can be prepared; the error of the last one when none can. */
  function PrepareFirst(disk: Disk, candidates: seq<Version>,
                        env: RunEnv): (Disk, Result<Option<GuestAgent>, UpdateError>)
    decreases |candidates|
  {
    if candidates == [] then (disk, Ok(None))
    else
      var (after, r) := Prepare(disk, candidates[0], FetchPackage(env, candidates[0]));
      match r
      case Ok(agent) => (after, Ok(Some(agent)))
      case Err(e) => if |candidates| == 1 then (after, Err(e)) else PrepareFirst(after, candidates[1..], env)
  }

  function RetrieveSelf(c: Config, s: State, f: Family, env: RunEnv): (State, Result<Option<GuestAgent>, UpdateError>)
    requires s.updater.SelfUpdater?
  {
    if f.manifest.None? then (s, Err(ManifestFetch))
    else
      var versions := SortedDescending(f.manifest.value);
      if (if versions == [] then 0 else versions[0]) <= c.current then (s, Ok(None))
      else
        var (gated, open) :=
          if s.initialMarker then SelfUpdateGate(s.updater, env.gateNow, env.delay) else (s.updater, true);
        if !open then (s.(updater := gated), Ok(None))
        else
          var (disk, r) := PrepareFirst(s.disk, Above(versions, c.current), env);
          (s.(updater := gated, disk := disk), r)
  }

  function RsmVersionAllowed(c: Config, f: Family): Result<bool, UpdateError> {
    var v := VersionOrZero(f.version);
    if f.versionFromRsm != Some(true) || v == c.current then Ok(false)
    else if v < c.daemon then Err(BelowDaemon)
    else if v < c.current && c.current != VersionOrZero(f.fromVersion) then Err(DowngradeRefused)
    else Ok(true)
  }

  /** The manifest is fetched once per updater object and then reused. */
  function RetrieveRsm(c: Config, s: State, f: Family, env: RunEnv): (State, Result<Option<GuestAgent>, UpdateError>)
    requires s.updater.RsmUpdater?
  {
    var v := VersionOrZero(f.version);
    match RsmVersionAllowed(c, f)
    case Err(e) => (s, Err(e))
    case Ok(allowed) =>
      if !allowed then (s, Ok(None))
      else
        var manifest := if s.updater.cachedManifest.Some? then s.updater.cachedManifest else f.manifest;
        var s1 := s.(updater := RsmUpdater(manifest));
        if manifest.None? then (s1, Err(ManifestFetch))
        else if v !in manifest.value then (s1, Err(NoMatchingPackage))
        else
          var (disk, r) := Prepare(s1.disk, v, FetchPackage(env, v));
          (s1.(disk := disk), if r.Ok? then Ok(Some(r.value)) else Err(r.error))
  }

  // ----- Finishing the update -----

  function Fail(s: State, e: UpdateError): (State, Outcome) {
    (s.(lastError := Some(e)), Failed(e))
  }

  function Finish(c: Config, s: State, agent: GuestAgent, env: RunEnv): (State, Outcome) {
    if agent.attempts >= MAX_UPDATE_ATTEMPTS then Fail(s, TooManyAttempts)
    else if agent.version in s.disk && !env.errorSaved then Fail(s, CannotSave)
    else
      var kept := Purged(Cleared(s.disk, agent, env.countSaved), {c.current, agent.version}, env.stuck);
      match s.updater
      case SelfUpdater(_, _) =>
        (s.(disk := kept), if agent.version > c.current then Exit(agent.version) else NoUpdate)
      case RsmUpdater(_) =>
        (s.(disk := if agent.version >= c.current then kept
                    else Blacklist(LoadAll(kept), c.current, env.blacklistSaved)),
         Exit(agent.version))
  }

  function Attempt(c: Config, s: State, f: Family, updated: bool, env: RunEnv): (State, Outcome) {
    var (s1, r) :=
      match s.updater
      case SelfUpdater(_, _) =>
        if !ManifestDownloadDue(s.updater, env.now, env.manifestFrequency) then (s, Ok(None))
        else RetrieveSelf(c, s.(updater := s.updater.(lastManifestDownload := Some(env.now))), f, env)
      case RsmUpdater(_) =>
        if !updated then (s, Ok(None)) else RetrieveRsm(c, s, f, env);
    match r
    case Err(e) => Fail(s1, e)
    case Ok(None) => (s1, NoUpdate)
    case Ok(Some(agent)) => Finish(c, s1, agent, env)
  }

  function RunBody(c: Config, s: State, gs: GoalState, env: RunEnv): (State, Outcome) {
    if !env.autoUpdate then Fail(s, AutoUpdateDisabled)
    else
      var s0 := if gs.updated then s.(lastError := None) else s;
      if gs.family.None? then Fail(s0, FamilyMissing)
      else match SwitchUpdater(s0, gs.family.value, gs.updated, env.gaVersioning)
        case Err(e) => Fail(s0, e)
        case Ok(s1) => Attempt(c, s1, gs.family.value, gs.updated, env)
  }

  /** AgentUpdateHandler.run; the initial-update marker is written on every way out. */
  function Run(c: Config, s: State, gs: GoalState, env: RunEnv): (State, Outcome) {
    var (s1, out) := RunBody(c, s, gs, env);
    (s1.(initialMarker := true), out)
  }

  /** The version the daemon launches next: the highest available one above its own, or its own. */
  ghost predicate DaemonLaunches(c: Config, disk: Disk, v: Version) {
    if exists w: Version :: Available(disk, w) && w > c.daemon
    then Available(disk, v) && v > c.daemon && forall w: Version :: Available(disk, w) ==> w <= v
    else v == c.daemon
  }
}
