/** The life of one extension handler on disk. A request is a plan of steps; every step runs
    an external command, or writes a state file, or both, and any command may fail. Executing
    a plan yields the list of primitive disk writes it performed, so that properties can be
    stated of every moment of a run. */
module HandlerProtocol {
  import opened Common

  type Version = int

  datatype HandlerState = NotInstalled | Installed | Enabled | FailedUpgrade

  /** A handler directory: the HandlerState file (NotInstalled when it does not exist) and the
      saved state of each extension of a multi-config handler (true means enabled). */
  datatype HandlerDir = HandlerDir(state: HandlerState, extensions: map<string, bool>)

  /** The directories of one handler name, by version. */
  type Disk = map<Version, HandlerDir>

  datatype RequestedState = RunExtension | DropExtension | UnknownRequest

  datatype Setting = Setting(name: string, requested: RequestedState)

  /** What the goal state says of the handler: multi-config or not, and all its settings. */
  datatype Handler = Handler(multiConfig: bool, settings: seq<Setting>)

  /** The flags of the new version's HandlerManifest.json that steer an update. */
  datatype Package = Package(continueOnUpdateFailure: bool, updateWithInstall: bool)

  /** A command succeeds, raises ExtensionError, or raises anything else. */
  datatype Outcome = Success | ExtensionError | OtherError

  // ----- Primitive writes -----

  datatype Write =
    | SetState(v: Version, state: HandlerState)
    | SetExtension(v: Version, name: string, enabled: bool)
    | RemoveExtension(v: Version, name: string)
    | RemoveDirectory(v: Version)

  function StateOf(disk: Disk, v: Version): HandlerState {
    if v in disk then disk[v].state else NotInstalled
  }

  function ExtensionsOf(disk: Disk, v: Version): map<string, bool> {
    if v in disk then disk[v].extensions else map[]
  }

  predicate ExtensionEnabled(disk: Disk, v: Version, name: string) {
    name in ExtensionsOf(disk, v) && ExtensionsOf(disk, v)[name]
  }

  function Apply(disk: Disk, w: Write): Disk {
    match w
    case SetState(v, state) => disk[v := HandlerDir(state, ExtensionsOf(disk, v))]
    case SetExtension(v, name, enabled) =>
      disk[v := HandlerDir(StateOf(disk, v), ExtensionsOf(disk, v)[name := enabled])]
    case RemoveExtension(v, name) =>
      if v in disk then disk[v := HandlerDir(disk[v].state, disk[v].extensions - {name})] else disk
    case RemoveDirectory(v) => disk - {v}
  }

  function ApplyAll(disk: Disk, ws: seq<Write>): Disk
    decreases |ws|
  {
    if ws == [] then disk else ApplyAll(Apply(disk, ws[0]), ws[1..])
  }

  // ----- Actions: what a command does to the disk when it is done -----

  datatype Action =
    | Nothing
    | Put(v: Version, state: HandlerState)
    | Remove(v: Version)
    | MarkEnabled(v: Version, h: Handler, extension: Option<Setting>)
    | MarkDisabled(v: Version, h: Handler, extension: Option<Setting>)

  predicate AnySettingEnabled(disk: Disk, v: Version, settings: seq<Setting>)
    decreases |settings|
  {
    settings != [] && (ExtensionEnabled(disk, v, settings[0].name) || AnySettingEnabled(disk, v, settings[1..]))
  }

  function ExtensionWrites(v: Version, h: Handler, extension: Option<Setting>): seq<Write> {
    if !h.multiConfig || extension.None? then []
    else if extension.value.requested == DropExtension then [RemoveExtension(v, extension.value.name)]
    else [SetExtension(v, extension.value.name, false)]
  }

  /** The writes of an action, in order. After a disable, the handler falls back to Installed
      once no extension listed in its settings is enabled. */
  function Writes(disk: Disk, a: Action): seq<Write> {
    match a
    case Nothing => []
    case Put(v, state) => [SetState(v, state)]
    case Remove(v) => [RemoveDirectory(v)]
    case MarkEnabled(v, h, extension) =>
      if h.multiConfig && extension.Some? then [SetExtension(v, extension.value.name, true), SetState(v, Enabled)]
      else [SetState(v, Enabled)]
    case MarkDisabled(v, h, extension) =>
      var ws := ExtensionWrites(v, h, extension);
      if h.multiConfig && AnySettingEnabled(ApplyAll(disk, ws), v, h.settings) then ws
      else ws + [SetState(v, Installed)]
  }

  // ----- Plans and their execution -----

  /** A write that is assumed to work; a command with its effect on success and on ExtensionError,
      which may be tolerated; the disable of an extension that is skipped when it is already
      disabled; or an unconditional error. */
  datatype Step =
    | Always(action: Action)
    | Command(onSuccess: Action, onError: Action, tolerated: bool)
    | DisableUnlessDisabled(v: Version, h: Handler, extension: Setting)
    | Raise

  const CHECK := Command(Nothing, Nothing, false)

  /** The effect of one step and whether execution goes on. */
  function Perform(disk: Disk, step: Step, o: Outcome): (Action, Outcome) {
    match step
    case Always(a) => (a, Success)
    case Raise => (Nothing, OtherError)
    case Command(onSuccess, onError, tolerated) =>
      (match o
       case Success => (onSuccess, Success)
       case ExtensionError => (onError, if tolerated then Success else ExtensionError)
       case OtherError => (Nothing, OtherError))
    case DisableUnlessDisabled(v, h, extension) =>
      if h.multiConfig && !ExtensionEnabled(disk, v, extension.name) then (Nothing, Success)
      else if o == OtherError then (Nothing, OtherError)
      else (MarkDisabled(v, h, Some(extension)), Success)
  }

  /** Runs a plan from its first step; `oracle(k)` is the outcome of the k-th step of the run. */
  function Execute(disk: Disk, plan: seq<Step>, k: nat, oracle: nat -> Outcome): (seq<Write>, Outcome)
    decreases |plan|
  {
    if plan == [] then ([], Success)
    else
      var (a, o) := Perform(disk, plan[0], oracle(k));
      var ws := Writes(disk, a);
      if o != Success then (ws, o)
      else
        var (rest, r) := Execute(ApplyAll(disk, ws), plan[1..], k + 1, oracle);
        (ws + rest, r)
  }

  // ----- The plans of the three requests -----

  predicate IsInstalled(s: HandlerState) {
    s == Installed || s == Enabled
  }

  /** The highest version that is installed or enabled. */
  ghost predicate IsInstalledVersion(disk: Disk, r: Option<Version>) {
    match r
    case None => forall v :: v in disk ==> !IsInstalled(disk[v].state)
    case Some(u) =>
      u in disk && IsInstalled(disk[u].state) && forall v :: v in disk && IsInstalled(disk[v].state) ==> v <= u
  }

  /** The settings to disable: those saved as enabled if multi-config, all of them otherwise. */
  function EnabledSettings(disk: Disk, v: Version, h: Handler, settings: seq<Setting>): seq<Setting> {
    if settings == [] then []
    else
      (if !h.multiConfig || ExtensionEnabled(disk, v, settings[0].name) then [settings[0]] else [])
      + EnabledSettings(disk, v, h, settings[1..])
  }

  /** A command of the old version during an update; the new manifest is read first. */
  function OldVersionCommand(a: Action, p: Package): seq<Step> {
    [CHECK, Command(a, Nothing, p.continueOnUpdateFailure)]
  }

  function DisableOld(prior: Version, h: Handler, p: Package, extensions: seq<Setting>): seq<Step> {
    if extensions == [] then []
    else OldVersionCommand(MarkDisabled(prior, h, Some(extensions[0])), p) + DisableOld(prior, h, p, extensions[1..])
  }

  function DisableAll(v: Version, h: Handler, extensions: seq<Setting>): seq<Step> {
    if extensions == [] then []
    else [Command(MarkDisabled(v, h, Some(extensions[0])), Nothing, false)] + DisableAll(v, h, extensions[1..])
  }

  function Max(a: Version, b: Version): Version {
    if a > b then a else b
  }

  /** An enabled old version is disabled extension by extension; a single-config handler without
      settings is disabled as a whole. */
  function DisableOldPlan(disk: Disk, prior: Version, h: Handler, p: Package): seq<Step> {
    if StateOf(disk, prior) != Enabled then []
    else if !h.multiConfig && h.settings == [] then OldVersionCommand(MarkDisabled(prior, h, None), p)
    else DisableOld(prior, h, p, EnabledSettings(disk, prior, h, h.settings))
  }

  function DisableAllPlan(disk: Disk, v: Version, h: Handler): seq<Step> {
    if StateOf(disk, v) != Enabled then []
    else if !h.multiConfig && h.settings == [] then [Command(MarkDisabled(v, h, None), Nothing, false)]
    else DisableAll(v, h, EnabledSettings(disk, v, h, h.settings))
  }

  /** The part of an update that runs while the old version is still there: policy, disabling the
      old version, copying status, the update command of the greater version, the old uninstall. */
  function LeaveOldPlan(disk: Disk, prior: Version, v: Version, h: Handler, p: Package): seq<Step> {
    [CHECK] + DisableOldPlan(disk, prior, h, p) + [CHECK, Command(Nothing, Put(Max(v, prior), FailedUpgrade), false)]
    + OldVersionCommand(Nothing, p)
  }

  /** Removal of the old directory; its failure is only logged. */
  function RemovalStep(v: Version): Step {
    Command(Remove(v), Nothing, true)
  }

  function EnterNewPlan(v: Version, p: Package): seq<Step>
  {
    [CHECK] + (if p.updateWithInstall then [Command(Put(v, Installed), Nothing, false)] else [])
      + [Always(Put(v, Installed))]
  }

  function UpdatePlan(disk: Disk, prior: Version, v: Version, h: Handler, p: Package): seq<Step> {
    LeaveOldPlan(disk, prior, v, h, p) + [RemovalStep(prior)] + EnterNewPlan(v, p)
  }

  /** Expanding a package left from before (discarded if that fails), downloading, initializing. */
  function PackagePlan(v: Version): seq<Step> {
    [Command(Nothing, Remove(v), true), Command(Nothing, Remove(v), false), Command(Nothing, Remove(v), false)]
  }

  /** Policy check, state file reset, package, settings. */
  function SetupPlan(v: Version): seq<Step> {
    [CHECK, Always(Put(v, NotInstalled))] + PackagePlan(v) + [CHECK]
  }

  function ExtensionPlan(v: Version, h: Handler, extension: Option<Setting>): seq<Step> {
    if extension.None? then [Command(MarkEnabled(v, h, None), Nothing, false)]
    else match extension.value.requested
      case RunExtension => [Command(MarkEnabled(v, h, extension), Nothing, false)]
      case DropExtension => [DisableUnlessDisabled(v, h, extension.value)]
      case UnknownRequest => [Raise]
  }

  function InstallPlan(disk: Disk, installed: Option<Version>, v: Version, h: Handler, p: Package): seq<Step> {
    if IsInstalled(StateOf(disk, v)) then [CHECK]
    else SetupPlan(v) + if installed.None? then [Command(Put(v, Installed), Nothing, false)]
                        else UpdatePlan(disk, installed.value, v, h, p)
  }

  function EnablePlan(disk: Disk, installed: Option<Version>, v: Version, h: Handler, extension: Option<Setting>,
                      p: Package): seq<Step>
  {
    InstallPlan(disk, installed, v, h, p) + ExtensionPlan(v, h, extension)
  }

  function DisablePlan(disk: Disk, v: Version, h: Handler, extension: Option<Setting>): seq<Step> {
    if StateOf(disk, v) == Enabled then [Command(MarkDisabled(v, h, extension), Nothing, false)] else []
  }

  function StopPlan(disk: Disk, v: Version, h: Handler): seq<Step> {
    if StateOf(disk, v) == NotInstalled then []
    else [CHECK] + DisableAllPlan(disk, v, h) + [Command(Nothing, Nothing, true)]
  }

  function UninstallPlan(disk: Disk, v: Version, h: Handler): seq<Step> {
    StopPlan(disk, v, h) + [RemovalStep(v)]
  }

  datatype Operation = Enable | Disable | Uninstall

  datatype Request = Request(operation: Operation, version: Version, h: Handler, extension: Option<Setting>, p: Package)

  /** Deciding the version comes first; disable and uninstall address the installed version, if any. */
  function RequestPlan(disk: Disk, installed: Option<Version>, req: Request): seq<Step> {
    var present := if installed.Some? then installed.value else req.version;
    [CHECK] +
    match req.operation
    case Enable => EnablePlan(disk, installed, req.version, req.h, req.extension, req.p)
    case Disable => DisablePlan(disk, present, req.h, req.extension)
    case Uninstall => UninstallPlan(disk, present, req.h)
  }

  // ----- Whole runs -----

  lemma {:induction false} HighestExists(vs: set<Version>) returns (u: Version)
    requires vs != {}
    ensures u in vs && forall v :: v in vs ==> v <= u
    decreases |vs|
  {
    var first := SomeOf(vs);
    var rest := vs - {first};
    u := first;
    if rest != {} {
      var w := HighestExists(rest);
      u := Max(first, w);
    }
    forall v | v in vs ensures v <= u {
      assert v == first || v in rest;
    }
  }

  ghost function InstalledVersion(disk: Disk): (r: Option<Version>)
    ensures IsInstalledVersion(disk, r)
  {
    var vs: set<Version> := set v | v in disk && IsInstalled(disk[v].state);
    if vs == {} then assert forall v :: v in disk && IsInstalled(disk[v].state) ==> v in vs; None
    else
      assert exists u :: IsInstalledVersion(disk, Some(u)) by {
        var u := HighestExists(vs);
        forall v | v in disk && IsInstalled(disk[v].state) ensures v <= u {
          assert v in vs;
        }
        assert IsInstalledVersion(disk, Some(u));
      }
      var u :| IsInstalledVersion(disk, Some(u)); Some(u)
  }

  /** A request together with the outcome of each of its steps. */
  datatype Job = Job(req: Request, oracle: nat -> Outcome)

  ghost function JobPlan(disk: Disk, job: Job): seq<Step> {
    RequestPlan(disk, InstalledVersion(disk), job.req)
  }

  /** The writes of a sequence of requests, each meeting the disk its predecessors left. */
  ghost function RunJobs(disk: Disk, jobs: seq<Job>): seq<Write>
    decreases |jobs|
  {
    if jobs == [] then []
    else
      var ws := Execute(disk, JobPlan(disk, jobs[0]), 0, jobs[0].oracle).0;
      ws + RunJobs(ApplyAll(disk, ws), jobs[1..])
  }
}
