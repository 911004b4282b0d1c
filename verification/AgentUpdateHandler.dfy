/** AgentUpdateHandler and its two updaters as the source writes them: fields and files
    changed step by step, proved to compute the protocol of UpdateProtocol. */
module AgentUpdateHandlers {
  import opened Common
  import opened GuestAgents
  import opened UpdateProtocol

  class AgentUpdateHandler {
    const config: Config
    var disk: Disk
    var rsmMarker: bool
    var initialMarker: bool
    var updater: Updater
    var lastError: Option<UpdateError>

    ghost function Current(): State
      reads this
    {
      State(disk, rsmMarker, initialMarker, updater, lastError)
    }

    /** A new process finds the disk and the marker files and picks the updater from them. */
    constructor (config: Config, disk: Disk, rsmMarker: bool, initialMarker: bool)
      ensures this.config == config
      ensures forall u, e :: Current() == Restart(State(disk, rsmMarker, initialMarker, u, e))
    {
      this.config := config;
      this.disk := disk;
      this.rsmMarker := rsmMarker;
      this.initialMarker := initialMarker;
      lastError := None;
      if !rsmMarker || !initialMarker {
        updater := FRESH_SELF_UPDATER;
      } else {
        updater := FRESH_RSM_UPDATER;
      }
    }

    /** Searches the manifest for the package of a version. */
    static method FindPackage(manifest: seq<Version>, v: Version) returns (found: bool)
      ensures found <==> v in manifest
    {
      for i := 0 to |manifest|
        invariant v !in manifest[..i]
      {
        if manifest[i] == v {
          return true;
        }
      }
      return false;
    }

    method DownloadAndGetNewAgent(v: Version, download: Download) returns (r: Result<GuestAgent, UpdateError>)
      modifies this`disk
      ensures (disk, r) == Prepare(old(disk), v, download)
    {
      if v !in disk || disk[v].manifest.Missing? {
        match download
        case Fails(removesDir) =>
          if removesDir {
            disk := disk - {v};
          }
          return Err(PackageUnusable);
        case Unzipped(m) =>
          var dir := if v in disk then disk[v] else AgentDir(Missing, NO_ERROR, 0);
          disk := disk[v := dir.(manifest := m)];
      }
      if disk[v].manifest.Missing? {
        disk := disk - {v};
        return Err(PackageUnusable);
      }
      var agent := GuestAgent(v, disk[v].attempts);
      if disk[v].manifest.Malformed? {
        disk := disk - {v};
      }
      return Ok(agent);
    }

    /** Tries the candidates from the highest down; only the last failure is raised. */
    method PrepareCandidates(candidates: seq<Version>, env: RunEnv) returns (r: Result<Option<GuestAgent>, UpdateError>)
      modifies this`disk
      ensures (disk, r) == PrepareFirst(old(disk), candidates, env)
    {
      for i := 0 to |candidates|
        invariant PrepareFirst(old(disk), candidates, env) == PrepareFirst(disk, candidates[i..], env)
        invariant i == |candidates| ==> candidates == []
      {
        var prepared := DownloadAndGetNewAgent(candidates[i], FetchPackage(env, candidates[i]));
        if prepared.Ok? {
          return Ok(Some(prepared.value));
        }
        if i == |candidates| - 1 {
          return Err(prepared.error);
        }
      }
      return Ok(None);
    }

    method RetrieveAndDownloadSelf(f: Family, env: RunEnv) returns (r: Result<Option<GuestAgent>, UpdateError>)
      requires updater.SelfUpdater?
      modifies this
      ensures (Current(), r) == RetrieveSelf(config, old(Current()), f, env)
    {
      if f.manifest.None? {
        return Err(ManifestFetch);
      }
      var versions := SortedDescending(f.manifest.value);
      var largest := if versions == [] then 0 else versions[0];
      if largest <= config.current {
        return Ok(None);
      }
      if initialMarker {
        if updater.nextUpdateTime.None? {
          updater := updater.(nextUpdateTime := Some(env.gateNow + env.delay));
        }
        if updater.nextUpdateTime.value > env.gateNow {
          return Ok(None);
        }
        updater := updater.(nextUpdateTime := None);
      }
      r := PrepareCandidates(Above(versions, config.current), env);
    }

    method RetrieveAndDownloadRsm(f: Family, env: RunEnv) returns (r: Result<Option<GuestAgent>, UpdateError>)
      requires updater.RsmUpdater?
      modifies this
      ensures (Current(), r) == RetrieveRsm(config, old(Current()), f, env)
    {
      var v := VersionOrZero(f.version);
      match RsmVersionAllowed(config, f)
      case Err(e) => return Err(e);
      case Ok(allowed) =>
        if !allowed {
          return Ok(None);
        }
        if updater.cachedManifest.None? {
          updater := RsmUpdater(f.manifest);
          if f.manifest.None? {
            return Err(ManifestFetch);
          }
        }
        var found := FindPackage(updater.cachedManifest.value, v);
        if !found {
          return Err(NoMatchingPackage);
        }
        var prepared := DownloadAndGetNewAgent(v, FetchPackage(env, v));
        r := if prepared.Ok? then Ok(Some(prepared.value)) else Err(prepared.error);
    }

    /** Visits the agent directories in whatever order the file system lists them. */
    method PurgeExtraAgents(known: set<Version>, stuck: set<Version>)
      modifies this`disk
      ensures disk == Purged(old(disk), known, stuck)
    {
      var paths: set<Version> := disk.Keys;
      while paths != {}
        invariant disk == map v | v in old(disk) && (v in known || v in stuck || v in paths) :: old(disk)[v]
      {
        var v := AnyOf(paths);
        if v !in known && v !in stuck {
          disk := disk - {v};
        }
        paths := paths - {v};
      }
    }

    /** Loads every agent on disk, then blacklists the running one if it is among the available. */
    method BlacklistCurrent(saved: bool)
      modifies this`disk
      ensures disk == Blacklist(LoadAll(old(disk)), config.current, saved)
    {
      var paths: set<Version>, available: set<Version> := disk.Keys, {};
      while paths != {}
        invariant disk == map v | v in old(disk) && (old(disk)[v].manifest.Loadable? || v in paths) :: old(disk)[v]
        invariant available == set v | v in old(disk) && v !in paths && Available(old(disk), v)
      {
        var v := AnyOf(paths);
        if !disk[v].manifest.Loadable? {
          disk := disk - {v};
        } else if !disk[v].error.Blacklisted() {
          available := available + {v};
        }
        paths := paths - {v};
      }
      if config.current in available && saved {
        var error := disk[config.current].error;
        disk := disk[config.current := disk[config.current].(error := AgentError(error.failureCount + 1, true))];
      }
    }

    method FinishUpdate(agent: GuestAgent, env: RunEnv) returns (out: Outcome)
      modifies this
      ensures (Current(), out) == Finish(config, old(Current()), agent, env)
    {
      if agent.attempts >= MAX_UPDATE_ATTEMPTS {
        lastError := Some(TooManyAttempts);
        return Failed(TooManyAttempts);
      }
      if agent.version in disk {
        if !env.errorSaved {
          lastError := Some(CannotSave);
          return Failed(CannotSave);
        }
        disk := disk[agent.version := disk[agent.version].(error := NO_ERROR)];
        if env.countSaved {
          disk := disk[agent.version := disk[agent.version].(attempts := agent.attempts + 1)];
        }
      }
      assert disk == Cleared(old(disk), agent, env.countSaved);
      PurgeExtraAgents({config.current, agent.version}, env.stuck);
      if updater.SelfUpdater? {
        return if agent.version > config.current then Exit(agent.version) else NoUpdate;
      }
      if agent.version < config.current {
        BlacklistCurrent(env.blacklistSaved);
      }
      return Exit(agent.version);
    }

    method TryUpdate(gs: GoalState, env: RunEnv) returns (out: Outcome)
      modifies this
      ensures (Current(), out) == RunBody(config, old(Current()), gs, env)
    {
      if !env.autoUpdate {
        lastError := Some(AutoUpdateDisabled);
        return Failed(AutoUpdateDisabled);
      }
      if gs.updated {
        lastError := None;
      }
      if gs.family.None? {
        lastError := Some(FamilyMissing);
        return Failed(FamilyMissing);
      }
      var f := gs.family.value;
      if initialMarker {
        var enabled := IsRsmUpdateEnabled(updater, f, gs.updated, env.gaVersioning);
        if enabled.Err? {
          lastError := Some(enabled.error);
          return Failed(enabled.error);
        }
        if !enabled.value && updater.RsmUpdater? {
          updater := FRESH_SELF_UPDATER;
          rsmMarker := false;
        }
        if enabled.value && updater.SelfUpdater? {
          updater := FRESH_RSM_UPDATER;
          rsmMarker := true;
        }
      }
      var r: Result<Option<GuestAgent>, UpdateError>;
      if updater.SelfUpdater? {
        if !ManifestDownloadDue(updater, env.now, env.manifestFrequency) {
          return NoUpdate;
        }
        updater := updater.(lastManifestDownload := Some(env.now));
        r := RetrieveAndDownloadSelf(f, env);
      } else {
        if !gs.updated {
          return NoUpdate;
        }
        r := RetrieveAndDownloadRsm(f, env);
      }
      if r.Err? {
        lastError := Some(r.error);
        return Failed(r.error);
      }
      if r.value.None? {
        return NoUpdate;
      }
      out := FinishUpdate(r.value.value, env);
    }

    method RunOnce(gs: GoalState, env: RunEnv) returns (out: Outcome)
      modifies this
      ensures (Current(), out) == Run(config, old(Current()), gs, env)
    {
      out := TryUpdate(gs, env);
      if !initialMarker {
        initialMarker := true;
      }
    }
  }
}
