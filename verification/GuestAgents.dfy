/** The agent directories on disk: what one holds, when it is available to the
    daemon, and the disk effects of preparing, clearing, counting, purging and
    blacklisting an agent. Versions are totally ordered with canonical names, so a
    version identifies its directory. */
module GuestAgents {
  import opened Common

  type Version = int

  const MAX_FAILURE: nat := 3
  const MAX_UPDATE_ATTEMPTS: nat := 3

  /** HandlerManifest.json: absent, present but rejected by the loader, or loadable. */
  datatype Manifest = Missing | Malformed | Loadable

  /** error.json */
  datatype AgentError = AgentError(failureCount: nat, wasFatal: bool) {
    predicate Blacklisted() {
      wasFatal || failureCount >= MAX_FAILURE
    }
  }

  const NO_ERROR := AgentError(0, false)

  /** One agent directory; `attempts` is the count kept in update_attempt.json. */
  datatype AgentDir = AgentDir(manifest: Manifest, error: AgentError, attempts: nat)

  type Disk = map<Version, AgentDir>

  /** What downloading and expanding a package does: it raises (possibly after removing
      the half-expanded directory), or leaves a manifest of some quality in the directory. */
  datatype Download = Fails(removesDir: bool) | Unzipped(manifest: Manifest)

  /** The object built by GuestAgent.from_agent_package: the counter is read before the manifest. */
  datatype GuestAgent = GuestAgent(version: Version, attempts: nat)

  datatype UpdateError = AutoUpdateDisabled | FamilyMissing | InvalidGoalState | ManifestFetch
                       | NoMatchingPackage | PackageUnusable | BelowDaemon | DowngradeRefused
                       | TooManyAttempts | CannotSave

  predicate Available(disk: Disk, v: Version) {
    v in disk && disk[v].manifest.Loadable? && !disk[v].error.Blacklisted()
  }

  /** The version that is available and above every other available one. */
  ghost predicate IsHighestAvailable(disk: Disk, v: Version) {
    Available(disk, v) && forall w: Version :: Available(disk, w) ==> w <= v
  }

  /** Constructing a GuestAgent for every directory removes those whose manifest does not load. */
  function LoadAll(disk: Disk): Disk {
    map v | v in disk && disk[v].manifest.Loadable? :: disk[v]
  }

  /** download_new_agent_pkg followed by GuestAgent.from_agent_package. A malformed manifest
      costs the directory, yet the agent object is still returned. */
  function Prepare(disk: Disk, v: Version, download: Download): (Disk, Result<GuestAgent, UpdateError>) {
    var fetched :=
      if v in disk && !disk[v].manifest.Missing? then Ok(disk)
      else match download
        case Fails(removesDir) => Err(if removesDir then disk - {v} else disk)
        case Unzipped(m) => Ok(disk[v := if v in disk then disk[v].(manifest := m) else AgentDir(m, NO_ERROR, 0)]);
    match fetched
    case Err(after) => (after, Err(PackageUnusable))
    case Ok(after) =>
      match after[v].manifest
      case Missing => (after - {v}, Err(PackageUnusable))
      case Malformed => (after - {v}, Ok(GuestAgent(v, after[v].attempts)))
      case Loadable => (after, Ok(GuestAgent(v, after[v].attempts)))
  }

  /** Whether the package that Prepare would use has a manifest that loads. */
  predicate PackageLoads(disk: Disk, v: Version, download: Download) {
    if v in disk && !disk[v].manifest.Missing? then disk[v].manifest.Loadable?
    else download == Unzipped(Loadable)
  }

  /** clear_error and inc_update_attempt_count; saving is skipped when the directory is gone. */
  function Cleared(disk: Disk, a: GuestAgent, countSaved: bool): Disk {
    if a.version !in disk then disk
    else disk[a.version := disk[a.version].(error := NO_ERROR,
                                            attempts := if countSaved then a.attempts + 1
                                                        else disk[a.version].attempts)]
  }

  /** purge_extra_agents_from_disk; removal of the directories in `stuck` fails. */
  function Purged(disk: Disk, known: set<Version>, stuck: set<Version>): Disk {
    map v | v in disk && (v in known || v in stuck) :: disk[v]
  }

  /** A downgrade blacklists the running version if it is found among the available agents. */
  function Blacklist(disk: Disk, v: Version, saved: bool): Disk {
    if Available(disk, v) && saved
    then disk[v := disk[v].(error := AgentError(disk[v].error.failureCount + 1, true))]
    else disk
  }
}
