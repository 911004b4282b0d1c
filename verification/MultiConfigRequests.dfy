/** Which requests to a multi-config handler leave every installed version in step, whatever their commands do. */
module MultiConfigRequests {
  import opened Common
  import opened HandlerProtocol
  import opened HandlerTheorems
  import opened MultiConfigTheorems
  import opened MultiConfigRuns

  // ----- The condition, on the disk and the request -----

  /** Of the version's enabled extensions the goal state lists all or none. */
  ghost predicate StopsInStep(disk: Disk, v: Version, settings: seq<Setting>) {
    Covers(settings, disk, v) || forall name :: ExtensionEnabled(disk, v, name) ==> !Named(settings, name)
  }

  /** For an enable of an installed version. */
  ghost predicate ExtensionKeeps(disk: Disk, req: Request) {
    var v, e := req.version, req.extension;
    if e.None? then AnyExtensionEnabled(disk, v)
    else e.value.requested == DropExtension && ExtensionEnabled(disk, v, e.value.name) ==>
           KeepsStep(disk, v, MarkDisabled(v, req.h, e))
  }

  ghost predicate RequestKeeps(disk: Disk, installed: Option<Version>, req: Request) {
    match req.operation
    case Enable =>
      if IsInstalled(StateOf(disk, req.version)) then ExtensionKeeps(disk, req)
      else
        && req.extension.Some? && !AnyExtensionEnabled(disk, req.version)
        && (installed.Some? ==> StopsInStep(disk, installed.value, req.h.settings))
    case Disable =>
      installed.Some? ==> KeepsStep(disk, installed.value, MarkDisabled(installed.value, req.h, req.extension))
    case Uninstall => installed.Some? ==> StopsInStep(disk, installed.value, req.h.settings)
  }

  ghost function AfterRequest(disk: Disk, installed: Option<Version>, req: Request, oracle: nat -> Outcome): Disk {
    ApplyAll(disk, Execute(disk, RequestPlan(disk, installed, req), 0, oracle).0)
  }

  // ----- Plans that keep step -----

  /** The version a plan may install, and the version it may disable with the settings listed for it. */
  datatype Aim = Aim(installs: Option<Version>, stops: Option<(Version, seq<Setting>)>)

  ghost predicate Ready(disk: Disk, aim: Aim) {
    && AllInStep(disk)
    && (aim.installs.Some? ==> !AnyExtensionEnabled(disk, aim.installs.value))
    && (aim.stops.Some? ==> Covers(aim.stops.value.1, disk, aim.stops.value.0))
  }

  predicate GentleAction(a: Action, aim: Aim) {
    match a
    case Nothing => true
    case Put(v, state) => state != Enabled && (state == Installed ==> aim.installs == Some(v))
    case Remove(_) => true
    case MarkEnabled(_, _, _) => false
    case MarkDisabled(v, h, _) => h.multiConfig && aim.stops == Some((v, h.settings))
  }

  predicate GentleStep(step: Step, aim: Aim) {
    match step
    case Always(a) => GentleAction(a, aim)
    case Command(a, b, _) => GentleAction(a, aim) && GentleAction(b, aim)
    case DisableUnlessDisabled(_, _, _) => false
    case Raise => true
  }

  ghost predicate Gentle(plan: seq<Step>, aim: Aim) {
    forall i :: 0 <= i < |plan| ==> GentleStep(plan[i], aim)
  }

  lemma {:induction false} NothingIsEnabled(disk: Disk, a: Action, v: Version, name: string)
    requires !a.MarkEnabled? && MultiConfigAction(a) && ExtensionEnabled(After(disk, a), v, name)
    ensures ExtensionEnabled(disk, v, name)
  {
    if !Touches(a, v) {
      UntouchedStays(disk, a, v);
    } else {
      match a
      case Put(_, state) => ApplyOne(disk, SetState(v, state));
      case Remove(_) => ApplyOne(disk, RemoveDirectory(v));
      case MarkDisabled(_, h, extension) =>
        var ws := ExtensionWrites(v, h, extension);
        ExtensionIsDisabled(disk, v, h, extension);
        ApplyAllConcat(disk, ws, [SetState(v, Installed)]);
        ApplyOne(ApplyAll(disk, ws), SetState(v, Installed));
    }
  }

  lemma {:induction false} GentleEffect(disk: Disk, a: Action, aim: Aim)
    requires Ready(disk, aim) && GentleAction(a, aim)
    ensures Ready(After(disk, a), aim)
  {
    if a.MarkDisabled? {
      CoveredDisableKeeps(disk, a.v, a.h, a.extension);
    }
    EffectKeepsExactlyWhen(disk, a);
    forall v, name | ExtensionEnabled(After(disk, a), v, name) ensures ExtensionEnabled(disk, v, name) {
      NothingIsEnabled(disk, a, v, name);
    }
  }

  lemma {:induction false} GentleExecution(disk: Disk, plan: seq<Step>, k: nat, oracle: nat -> Outcome, aim: Aim)
    requires Ready(disk, aim) && Gentle(plan, aim)
    ensures Ready(ApplyAll(disk, Execute(disk, plan, k, oracle).0), aim)
    decreases |plan|
  {
    if plan != [] {
      assert GentleStep(plan[0], aim);
      var (a, o) := Perform(disk, plan[0], oracle(k));
      GentleEffect(disk, a, aim);
      if o == Success {
        var next := After(disk, a);
        GentleExecution(next, plan[1..], k + 1, oracle, aim);
        ApplyAllConcat(disk, Writes(disk, a), Execute(next, plan[1..], k + 1, oracle).0);
      }
    }
  }

  // ----- Disabling all that is listed -----

  lemma {:induction false} DisablesAreGentle(v: Version, h: Handler, p: Package, settings: seq<Setting>, aim: Aim)
    requires h.multiConfig && (settings != [] ==> aim.stops == Some((v, h.settings)))
    ensures Gentle(DisableOld(v, h, p, settings), aim) && Gentle(DisableAll(v, h, settings), aim)
    decreases |settings|
  {
    if settings != [] {
      DisablesAreGentle(v, h, p, settings[1..], aim);
    }
  }

  lemma {:induction false} NamedFirst(settings: seq<Setting>, name: string)
    requires settings != []
    ensures Named(settings, name) <==> settings[0].name == name || Named(settings[1..], name)
  {
    if Named(settings[1..], name) {
      var i :| 0 <= i < |settings[1..]| && settings[1..][i].name == name;
      assert settings[i + 1].name == name;
    }
    if i :| 0 <= i < |settings| && settings[i].name == name && i > 0 {
      assert settings[1..][i - 1].name == name;
    }
  }

  lemma {:induction false} EnabledSettingsAre(disk: Disk, v: Version, h: Handler, settings: seq<Setting>, name: string)
    requires h.multiConfig
    ensures Named(EnabledSettings(disk, v, h, settings), name)
       <==> Named(settings, name) && ExtensionEnabled(disk, v, name)
    decreases |settings|
  {
    if settings != [] {
      var first, rest := settings[0], EnabledSettings(disk, v, h, settings[1..]);
      EnabledSettingsAre(disk, v, h, settings[1..], name);
      NamedFirst(settings, name);
      if ExtensionEnabled(disk, v, first.name) {
        assert ([first] + rest)[1..] == rest;
        NamedFirst([first] + rest, name);
      } else {
        assert [] + rest == rest;
      }
    }
  }

  /** What a stop aims at: nothing is disabled when no enabled extension is listed. */
  ghost function StopAim(disk: Disk, v: Version, h: Handler, installs: Option<Version>): Aim {
    Aim(installs, if EnabledSettings(disk, v, h, h.settings) == [] then None else Some((v, h.settings)))
  }

  lemma {:induction false} StopIsReady(disk: Disk, v: Version, h: Handler, installs: Option<Version>)
    requires h.multiConfig && AllInStep(disk) && StopsInStep(disk, v, h.settings)
    requires installs.Some? ==> !AnyExtensionEnabled(disk, installs.value)
    ensures Ready(disk, StopAim(disk, v, h, installs))
  {
    var found := EnabledSettings(disk, v, h, h.settings);
    if found != [] {
      EnabledSettingsAre(disk, v, h, h.settings, found[0].name);
    }
  }

  // ----- Updates and uninstalls that keep step -----

  lemma {:induction false} DisableOldIsGentle(disk: Disk, v: Version, h: Handler, p: Package, installs: Option<Version>)
    requires h.multiConfig
    ensures Gentle(DisableOldPlan(disk, v, h, p), StopAim(disk, v, h, installs))
  {
    DisablesAreGentle(v, h, p, EnabledSettings(disk, v, h, h.settings), StopAim(disk, v, h, installs));
  }

  lemma {:induction false} UninstallIsGentle(disk: Disk, v: Version, h: Handler, p: Package)
    requires h.multiConfig
    ensures Gentle(UninstallPlan(disk, v, h), StopAim(disk, v, h, None))
  {
    var found, aim := EnabledSettings(disk, v, h, h.settings), StopAim(disk, v, h, None);
    DisablesAreGentle(v, h, p, found, aim);
    if StateOf(disk, v) == Enabled {
      Around([CHECK], DisableAll(v, h, found), [Command(Nothing, Nothing, true)], [RemovalStep(v)], aim);
    }
  }

  lemma {:induction false} Around(a: seq<Step>, b: seq<Step>, c: seq<Step>, d: seq<Step>, aim: Aim)
    requires Gentle(a, aim) && Gentle(b, aim) && Gentle(c, aim) && Gentle(d, aim)
    ensures Gentle((a + b + c) + d, aim)
  {
  }

  lemma {:induction false} LeaveOldIsGentle(disk: Disk, prior: Version, v: Version, h: Handler, p: Package)
    requires h.multiConfig
    ensures Gentle(LeaveOldPlan(disk, prior, v, h, p), StopAim(disk, prior, h, Some(v)))
  {
    DisableOldIsGentle(disk, prior, h, p, Some(v));
  }

  ghost function InstallAim(disk: Disk, installed: Option<Version>, req: Request): Aim {
    if installed.None? then Aim(Some(req.version), None)
    else StopAim(disk, installed.value, req.h, Some(req.version))
  }

  lemma {:induction false} PreparationIsGentle(disk: Disk, installed: Option<Version>, req: Request)
    requires req.h.multiConfig
    ensures Gentle(Preparation(disk, installed, req), InstallAim(disk, installed, req))
  {
    if installed.Some? {
      LeaveOldIsGentle(disk, installed.value, req.version, req.h, req.p);
    }
  }

  lemma {:induction false} ExtensionKeepsStep(disk: Disk, v: Version, h: Handler, e: Setting, k: nat,
                                              oracle: nat -> Outcome)
    requires AllInStep(disk) && !AnyExtensionEnabled(disk, v) && h.multiConfig
    ensures AllInStep(ApplyAll(disk, Execute(disk, ExtensionPlan(v, h, Some(e)), k, oracle).0))
  {
    var plan := ExtensionPlan(v, h, Some(e));
    assert plan == [plan[0]];
    OnlyStep(disk, plan[0], k, oracle);
    assert !ExtensionEnabled(disk, v, e.name);
    EffectKeepsExactlyWhen(disk, Perform(disk, plan[0], oracle(k)).0);
  }

  /** A last plan that keeps step on every disk the gentle one may leave. */
  lemma {:induction false} GentleThen(disk: Disk, body: seq<Step>, last: seq<Step>, aim: Aim, oracle: nat -> Outcome)
    requires Ready(disk, aim) && Gentle(body, aim)
    requires forall d :: Ready(d, aim) ==> AllInStep(ApplyAll(d, Execute(d, last, |body|, oracle).0))
    ensures AllInStep(ApplyAll(disk, Execute(disk, body + last, 0, oracle).0))
  {
    GentleExecution(disk, body, 0, oracle, aim);
    EndsAllInStep(disk, body, last, oracle);
  }

  lemma {:induction false} EndsAllInStep(disk: Disk, body: seq<Step>, last: seq<Step>, oracle: nat -> Outcome)
    requires var next := ApplyAll(disk, Execute(disk, body, 0, oracle).0);
             AllInStep(next) && AllInStep(ApplyAll(next, Execute(next, last, |body|, oracle).0))
    ensures AllInStep(ApplyAll(disk, Execute(disk, body + last, 0, oracle).0))
  {
    var next := FailsOrGoesOn(disk, body, last, 0, oracle);
    EitherWay(next, ApplyAll(next, Execute(next, last, |body|, oracle).0),
              ApplyAll(disk, Execute(disk, body + last, 0, oracle).0));
  }

  lemma {:induction false} EitherWay(next: Disk, later: Disk, end: Disk)
    requires AllInStep(next) && AllInStep(later) && (end == next || end == later)
    ensures AllInStep(end)
  {
  }

  lemma {:induction false} InstallKeepsStep(disk: Disk, installed: Option<Version>, req: Request,
                                            oracle: nat -> Outcome)
    requires AllInStep(disk) && Installs(disk, installed, req) && RequestKeeps(disk, installed, req)
    ensures AllInStep(AfterRequest(disk, installed, req, oracle))
  {
    var aim := InstallAim(disk, installed, req);
    var body := Preparation(disk, installed, req) + [InstallStep(installed, req.version)];
    InstallingPlan(disk, installed, req);
    PreparationIsGentle(disk, installed, req);
    if installed.Some? {
      StopIsReady(disk, installed.value, req.h, Some(req.version));
    }
    assert RequestPlan(disk, installed, req) == body + ExtensionPlan(req.version, req.h, req.extension);
    var last := ExtensionPlan(req.version, req.h, req.extension);
    forall d | Ready(d, aim) ensures AllInStep(ApplyAll(d, Execute(d, last, |body|, oracle).0)) {
      ExtensionKeepsStep(d, req.version, req.h, req.extension.value, |body|, oracle);
    }
    GentleThen(disk, body, last, aim, oracle);
  }

  lemma {:induction false} UninstallKeepsStep(disk: Disk, installed: Option<Version>, req: Request,
                                              oracle: nat -> Outcome)
    requires AllInStep(disk) && IsInstalledVersion(disk, installed) && req.h.multiConfig
    requires req.operation == Uninstall && RequestKeeps(disk, installed, req)
    ensures AllInStep(AfterRequest(disk, installed, req, oracle))
  {
    var plan := RequestPlan(disk, installed, req);
    if installed.Some? {
      var aim := StopAim(disk, installed.value, req.h, None);
      StopIsReady(disk, installed.value, req.h, None);
      UninstallIsGentle(disk, installed.value, req.h, req.p);
      GentleExecution(disk, plan, 0, oracle, aim);
    } else {
      GentleExecution(disk, plan, 0, oracle, Aim(None, None));
    }
  }

  // ----- Stops that break step -----

  function Marks(v: Version, h: Handler, settings: seq<Setting>): seq<Action> {
    if settings == [] then [] else [MarkDisabled(v, h, Some(settings[0]))] + Marks(v, h, settings[1..])
  }

  lemma {:induction false} OneDisabled(disk: Disk, v: Version, h: Handler, e: Setting)
    requires h.multiConfig
    ensures var after := After(disk, MarkDisabled(v, h, Some(e)));
            && (forall name :: ExtensionEnabled(after, v, name) <==> ExtensionEnabled(disk, v, name) && name != e.name)
            && ((forall name :: ExtensionEnabled(after, v, name) ==> !Named(h.settings, name)) ==>
                StateOf(after, v) == Installed)
  {
    var ws := ExtensionWrites(v, h, Some(e));
    var mid := ApplyAll(disk, ws);
    ExtensionIsDisabled(disk, v, h, Some(e));
    assert forall name :: EnabledBeside(disk, v, Some(e), name) <==> ExtensionEnabled(disk, v, name) && name != e.name;
    SomeSettingEnabled(mid, v, h.settings);
    ApplyAllConcat(disk, ws, [SetState(v, Installed)]);
    ApplyOne(mid, SetState(v, Installed));
    var reset := Apply(mid, SetState(v, Installed));
    assert forall name :: ExtensionEnabled(reset, v, name) <==> ExtensionEnabled(mid, v, name);
  }

  /** Disabling every listed extension that is enabled leaves the version Installed, whatever else is enabled. */
  lemma {:induction false} AllDisabled(disk: Disk, v: Version, h: Handler, settings: seq<Setting>)
    requires h.multiConfig && settings != []
    requires forall name :: ExtensionEnabled(disk, v, name) && Named(h.settings, name) ==> Named(settings, name)
    ensures var after := AfterAll(disk, Marks(v, h, settings));
            && StateOf(after, v) == Installed
            && (forall name ::
                  ExtensionEnabled(after, v, name) <==> ExtensionEnabled(disk, v, name) && !Named(settings, name))
    decreases |settings|
  {
    var next := After(disk, MarkDisabled(v, h, Some(settings[0])));
    OneDisabled(disk, v, h, settings[0]);
    forall name ensures Named(settings, name) <==> settings[0].name == name || Named(settings[1..], name) {
      NamedFirst(settings, name);
    }
    assert Marks(v, h, settings)[1..] == Marks(v, h, settings[1..]);
    if |settings| > 1 {
      AllDisabled(next, v, h, settings[1..]);
    }
  }

  lemma {:induction false} StopBreaksStep(disk: Disk, start: Disk, v: Version, h: Handler)
    requires h.multiConfig && !StopsInStep(disk, v, h.settings) && ExtensionsOf(start, v) == ExtensionsOf(disk, v)
    ensures !AllInStep(AfterAll(start, Marks(v, h, EnabledSettings(disk, v, h, h.settings))))
  {
    var found := EnabledSettings(disk, v, h, h.settings);
    var listed :| ExtensionEnabled(disk, v, listed) && Named(h.settings, listed);
    var other :| ExtensionEnabled(disk, v, other) && !Named(h.settings, other);
    forall name ensures Named(found, name) <==> Named(h.settings, name) && ExtensionEnabled(disk, v, name) {
      EnabledSettingsAre(disk, v, h, h.settings, name);
    }
    assert Named(found, listed);
    assert forall name :: ExtensionEnabled(start, v, name) <==> ExtensionEnabled(disk, v, name);
    AllDisabled(start, v, h, found);
    var after := AfterAll(start, Marks(v, h, found));
    assert ExtensionEnabled(after, v, other);
    assert IsInstalled(StateOf(after, v)) && !InStep(after, v);
  }

  lemma {:induction false} LeadsOn(disk: Disk, plan: seq<Step>, more: seq<Step>, k: nat, oracle: nat -> Outcome,
                                   next: Disk, last: Disk)
    requires Leads(disk, plan, k, oracle, next) && Leads(next, more, k + |plan|, oracle, last)
    ensures Leads(disk, plan + more, k, oracle, last)
  {
    ExecuteConcat(disk, plan, more, k, oracle);
    GoesOn(disk, plan, more, k, oracle, next);
  }

  lemma {:induction false} CommandWorks(disk: Disk, a: Action, b: Action, tolerated: bool, k: nat,
                                        oracle: nat -> Outcome)
    requires oracle(k) == Success
    ensures Leads(disk, [Command(a, b, tolerated)], k, oracle, After(disk, a))
  {
    var plan := [Command(a, b, tolerated)];
    OnlyStep(disk, plan[0], k, oracle);
    assert plan[1..] == [];
  }

  lemma {:induction false} DisableAllWorks(disk: Disk, v: Version, h: Handler, settings: seq<Setting>, k: nat,
                                           oracle: nat -> Outcome)
    requires forall i :: k <= i < k + |settings| ==> oracle(i) == Success
    ensures |DisableAll(v, h, settings)| == |settings|
    ensures Leads(disk, DisableAll(v, h, settings), k, oracle, AfterAll(disk, Marks(v, h, settings)))
    decreases |settings|
  {
    if settings != [] {
      var a, rest := MarkDisabled(v, h, Some(settings[0])), settings[1..];
      var next := After(disk, a);
      CommandWorks(disk, a, Nothing, false, k, oracle);
      DisableAllWorks(next, v, h, rest, k + 1, oracle);
      assert Marks(v, h, settings)[1..] == Marks(v, h, rest);
      LeadsOn(disk, [Command(a, Nothing, false)], DisableAll(v, h, rest), k, oracle, next,
              AfterAll(next, Marks(v, h, rest)));
    }
  }

  lemma {:induction false} OldCommandWorks(disk: Disk, a: Action, p: Package, k: nat, oracle: nat -> Outcome)
    requires oracle(k) == Success && oracle(k + 1) == Success
    ensures Leads(disk, OldVersionCommand(a, p), k, oracle, After(disk, a))
  {
    var last := Command(a, Nothing, p.continueOnUpdateFailure);
    CommandWorks(disk, Nothing, Nothing, false, k, oracle);
    CommandWorks(disk, a, Nothing, p.continueOnUpdateFailure, k + 1, oracle);
    assert After(disk, Nothing) == disk && OldVersionCommand(a, p) == [CHECK] + [last];
    LeadsOn(disk, [CHECK], [last], k, oracle, disk, After(disk, a));
  }

  lemma {:induction false} DisableOldWorks(disk: Disk, v: Version, h: Handler, p: Package, settings: seq<Setting>,
                                           k: nat, oracle: nat -> Outcome)
    requires forall i :: k <= i < k + 2 * |settings| ==> oracle(i) == Success
    ensures |DisableOld(v, h, p, settings)| == 2 * |settings|
    ensures Leads(disk, DisableOld(v, h, p, settings), k, oracle, AfterAll(disk, Marks(v, h, settings)))
    decreases |settings|
  {
    if settings != [] {
      var a, rest := MarkDisabled(v, h, Some(settings[0])), settings[1..];
      var next := After(disk, a);
      OldCommandWorks(disk, a, p, k, oracle);
      DisableOldWorks(next, v, h, p, rest, k + 2, oracle);
      assert Marks(v, h, settings)[1..] == Marks(v, h, rest);
      LeadsOn(disk, OldVersionCommand(a, p), DisableOld(v, h, p, rest), k, oracle, next,
              AfterAll(next, Marks(v, h, rest)));
    }
  }

  /** A plan whose next command then fails leaves the disk as it is. */
  lemma {:induction false} StopsThere(disk: Disk, plan: seq<Step>, more: seq<Step>, oracle: nat -> Outcome, next: Disk)
    requires Leads(disk, plan, 0, oracle, next) && more != [] && more[0].Command? && oracle(|plan|) == OtherError
    ensures ApplyAll(disk, Execute(disk, plan + more, 0, oracle).0) == next
  {
    GoesOn(disk, plan, more, 0, oracle, next);
    assert ApplyAll(next, []) == next;
  }

  lemma {:induction false} EnabledWhenBroken(disk: Disk, v: Version, settings: seq<Setting>)
    requires AllInStep(disk) && IsInstalled(StateOf(disk, v)) && !StopsInStep(disk, v, settings)
    ensures StateOf(disk, v) == Enabled
  {
    assert InStep(disk, v);
    var name :| ExtensionEnabled(disk, v, name);
  }

  lemma {:induction false} UninstallPlanParts(disk: Disk, v: Version, req: Request) returns (rest: seq<Step>)
    requires req.operation == Uninstall && req.h.multiConfig && StateOf(disk, v) == Enabled
    ensures var disables := DisableAll(v, req.h, EnabledSettings(disk, v, req.h, req.h.settings));
            RequestPlan(disk, Some(v), req) == ([CHECK, CHECK] + disables) + rest
    ensures rest != [] && rest[0].Command?
  {
    rest := [Command(Nothing, Nothing, true), RemovalStep(v)];
  }

  lemma {:induction false} ChecksWork(disk: Disk, oracle: nat -> Outcome)
    requires oracle(0) == Success && oracle(1) == Success
    ensures Leads(disk, [CHECK, CHECK], 0, oracle, disk)
  {
    OldCommandWorks(disk, Nothing, Package(false, false), 0, oracle);
    assert After(disk, Nothing) == disk;
  }

  lemma {:induction false} UninstallBreaksStep(disk: Disk, v: Version, req: Request) returns (oracle: nat -> Outcome)
    requires AllInStep(disk) && IsInstalledVersion(disk, Some(v)) && req.h.multiConfig && req.operation == Uninstall
    requires !StopsInStep(disk, v, req.h.settings)
    ensures !AllInStep(AfterRequest(disk, Some(v), req, oracle))
  {
    var found := EnabledSettings(disk, v, req.h, req.h.settings);
    oracle := FailsLast(2 + |found|);
    EnabledWhenBroken(disk, v, req.h.settings);
    var disables, next := DisableAll(v, req.h, found), AfterAll(disk, Marks(v, req.h, found));
    ChecksWork(disk, oracle);
    DisableAllWorks(disk, v, req.h, found, 2, oracle);
    LeadsOn(disk, [CHECK, CHECK], disables, 0, oracle, disk, next);
    var rest := UninstallPlanParts(disk, v, req);
    StopsThere(disk, [CHECK, CHECK] + disables, rest, oracle, next);
    StopBreaksStep(disk, disk, v, req.h);
  }

  function BeforeDisables(v: Version): seq<Step> {
    [CHECK] + SetupPlan(v) + [CHECK]
  }

  lemma {:induction false} UpdatePlanParts(disk: Disk, prior: Version, req: Request) returns (rest: seq<Step>)
    requires req.operation == Enable && req.h.multiConfig && !IsInstalled(StateOf(disk, req.version))
    requires StateOf(disk, prior) == Enabled
    ensures var disables := DisableOld(prior, req.h, req.p, EnabledSettings(disk, prior, req.h, req.h.settings));
            RequestPlan(disk, Some(prior), req) == (BeforeDisables(req.version) + disables) + rest
    ensures rest != [] && rest[0].Command?
  {
    var v, p := req.version, req.p;
    var disables := DisableOld(prior, req.h, p, EnabledSettings(disk, prior, req.h, req.h.settings));
    var update := [CHECK, Command(Nothing, Put(Max(v, prior), FailedUpgrade), false)];
    var enter, last := [RemovalStep(prior)] + EnterNewPlan(v, p), ExtensionPlan(v, req.h, req.extension);
    assert LeaveOldPlan(disk, prior, v, req.h, p) == [CHECK] + disables + update + OldVersionCommand(Nothing, p);
    Regroup([CHECK], disables, update, OldVersionCommand(Nothing, p), [RemovalStep(prior)], EnterNewPlan(v, p));
    rest := (update + OldVersionCommand(Nothing, p) + enter) + last;
    Nest([CHECK], SetupPlan(v), [CHECK], disables, update + OldVersionCommand(Nothing, p) + enter, last);
  }

  lemma {:induction false} Regroup<T>(a: seq<T>, b: seq<T>, c: seq<T>, d: seq<T>, e: seq<T>, f: seq<T>)
    ensures (a + b + c + d) + e + f == (a + b) + (c + d + (e + f))
  {
  }

  lemma {:induction false} Nest<T>(a: seq<T>, b: seq<T>, c: seq<T>, d: seq<T>, e: seq<T>, f: seq<T>)
    ensures a + ((b + ((c + d) + e)) + f) == (a + b + c + d) + (e + f)
  {
  }

  lemma {:induction false} SetupWorks(disk: Disk, prior: Version, v: Version, oracle: nat -> Outcome)
    returns (next: Disk)
    requires prior != v && forall i :: 0 <= i < |BeforeDisables(v)| ==> oracle(i) == Success
    ensures Leads(disk, BeforeDisables(v), 0, oracle, next) && ExtensionsOf(next, prior) == ExtensionsOf(disk, prior)
  {
    PreparingSucceeds(disk, BeforeDisables(v), 0, oracle, prior);
    next := ApplyAll(disk, Execute(disk, BeforeDisables(v), 0, oracle).0);
  }

  lemma {:induction false} UpdateBreaksStep(disk: Disk, prior: Version, req: Request) returns (oracle: nat -> Outcome)
    requires AllInStep(disk) && Installs(disk, Some(prior), req) && !StopsInStep(disk, prior, req.h.settings)
    ensures !AllInStep(AfterRequest(disk, Some(prior), req, oracle))
  {
    var found, before := EnabledSettings(disk, prior, req.h, req.h.settings), BeforeDisables(req.version);
    oracle := FailsLast(|before| + 2 * |found|);
    EnabledWhenBroken(disk, prior, req.h.settings);
    var disables := DisableOld(prior, req.h, req.p, found);
    var start := SetupWorks(disk, prior, req.version, oracle);
    var next := AfterAll(start, Marks(prior, req.h, found));
    DisableOldWorks(start, prior, req.h, req.p, found, |before|, oracle);
    LeadsOn(disk, before, disables, 0, oracle, start, next);
    var rest := UpdatePlanParts(disk, prior, req);
    StopsThere(disk, before + disables, rest, oracle, next);
    StopBreaksStep(disk, start, prior, req.h);
  }

  // ----- Requests -----

  ghost predicate StaysInStep(disk: Disk, installed: Option<Version>, req: Request) {
    forall oracle: nat -> Outcome :: AllInStep(AfterRequest(disk, installed, req, oracle))
  }

  lemma {:induction false} InstallStaysExactlyWhen(disk: Disk, installed: Option<Version>, req: Request)
    requires AllInStep(disk) && Installs(disk, installed, req)
    ensures StaysInStep(disk, installed, req) <==> RequestKeeps(disk, installed, req)
  {
    var v := req.version;
    if RequestKeeps(disk, installed, req) {
      forall oracle: nat -> Outcome ensures AllInStep(AfterRequest(disk, installed, req, oracle)) {
        InstallKeepsStep(disk, installed, req, oracle);
      }
    } else if req.extension.None? || AnyExtensionEnabled(disk, v) {
      InstallStaysInStepExactlyWhen(disk, installed, req);
      var oracle: nat -> Outcome :|
        var after := ApplyAll(disk, Execute(disk, RequestPlan(disk, installed, req), 0, oracle).0);
        IsInstalled(StateOf(after, v)) && !InStep(after, v);
      assert !AllInStep(AfterRequest(disk, installed, req, oracle));
    } else {
      var oracle := UpdateBreaksStep(disk, installed.value, req);
    }
  }

  lemma {:induction false} UninstallStaysExactlyWhen(disk: Disk, installed: Option<Version>, req: Request)
    requires AllInStep(disk) && IsInstalledVersion(disk, installed) && req.h.multiConfig && req.operation == Uninstall
    ensures StaysInStep(disk, installed, req) <==> RequestKeeps(disk, installed, req)
  {
    if RequestKeeps(disk, installed, req) {
      forall oracle: nat -> Outcome ensures AllInStep(AfterRequest(disk, installed, req, oracle)) {
        UninstallKeepsStep(disk, installed, req, oracle);
      }
    } else {
      var oracle := UninstallBreaksStep(disk, installed.value, req);
    }
  }

  /** Requests about an installed version have one effect. */
  lemma {:induction false} EffectStays(disk: Disk, v: Version, req: Request, oracle: nat -> Outcome)
    requires AllInStep(disk) && IsInstalled(StateOf(disk, v)) && AboutInstalled(req, v)
    ensures AllInStep(AfterRequest(disk, Some(v), req, oracle)) <==> Keeps(disk, EffectOf(disk, v, req, oracle))
  {
    RequestHasItsEffect(disk, v, req, oracle);
    EffectKeepsExactlyWhen(disk, EffectOf(disk, v, req, oracle));
  }

  lemma {:induction false} PlainStaysExactlyWhen(disk: Disk, v: Version, req: Request)
    requires AllInStep(disk) && IsInstalled(StateOf(disk, v)) && AboutInstalled(req, v)
    ensures StaysInStep(disk, Some(v), req) <==> RequestKeeps(disk, Some(v), req)
  {
    assert InStep(disk, v);
    if RequestKeeps(disk, Some(v), req) {
      forall oracle: nat -> Outcome ensures AllInStep(AfterRequest(disk, Some(v), req, oracle)) {
        EffectStays(disk, v, req, oracle);
      }
    } else {
      var oracle := (k: nat) => Success;
      EffectStays(disk, v, req, oracle);
      assert !AllInStep(AfterRequest(disk, Some(v), req, oracle));
    }
  }

  lemma {:induction false} NothingToDisable(disk: Disk, req: Request)
    requires AllInStep(disk) && IsInstalledVersion(disk, None) && req.operation == Disable
    ensures StaysInStep(disk, None, req)
  {
    forall oracle: nat -> Outcome ensures AllInStep(AfterRequest(disk, None, req, oracle)) {
      assert RequestPlan(disk, None, req) == [CHECK];
      OnlyStep(disk, CHECK, 0, oracle);
    }
  }

  /** From a disk in step, a request of any kind leaves every installed version in step, whatever its commands do,
      exactly when the disk and the request meet the condition. */
  lemma {:induction false} RequestStaysInStepExactlyWhen(disk: Disk, installed: Option<Version>, req: Request)
    requires AllInStep(disk) && IsInstalledVersion(disk, installed) && req.h.multiConfig
    ensures StaysInStep(disk, installed, req) <==> RequestKeeps(disk, installed, req)
  {
    match req.operation
    case Uninstall => UninstallStaysExactlyWhen(disk, installed, req);
    case Disable =>
      if installed.Some? {
        PlainStaysExactlyWhen(disk, installed.value, req);
      } else {
        NothingToDisable(disk, req);
      }
    case Enable =>
      var v := req.version;
      if IsInstalled(StateOf(disk, v)) {
        assert RequestPlan(disk, installed, req) == RequestPlan(disk, Some(v), req);
        assert forall oracle: nat -> Outcome ::
            AfterRequest(disk, installed, req, oracle) == AfterRequest(disk, Some(v), req, oracle);
        PlainStaysExactlyWhen(disk, v, req);
      } else {
        InstallStaysExactlyWhen(disk, installed, req);
      }
  }

  // ----- Runs of requests -----

  ghost function Next(disk: Disk, req: Request, oracle: nat -> Outcome): Disk {
    AfterRequest(disk, InstalledVersion(disk), req, oracle)
  }

  /** In step now and after each request, whatever the commands of any of them do. */
  ghost predicate AlwaysInStep(disk: Disk, reqs: seq<Request>)
    decreases |reqs|
  {
    && AllInStep(disk)
    && (reqs == [] || forall oracle: nat -> Outcome :: AlwaysInStep(Next(disk, reqs[0], oracle), reqs[1..]))
  }

  /** Each request meets its condition on every disk that the ones before it may leave. */
  ghost predicate RequestsKeep(disk: Disk, reqs: seq<Request>)
    decreases |reqs|
  {
    reqs == [] ||
    (RequestKeeps(disk, InstalledVersion(disk), reqs[0])
     && forall oracle: nat -> Outcome :: RequestsKeep(Next(disk, reqs[0], oracle), reqs[1..]))
  }

  lemma {:induction false} HandlerStaysInStepExactlyWhen(disk: Disk, reqs: seq<Request>)
    requires AllInStep(disk) && forall i :: 0 <= i < |reqs| ==> reqs[i].h.multiConfig
    ensures AlwaysInStep(disk, reqs) <==> RequestsKeep(disk, reqs)
    decreases |reqs|
  {
    if reqs != [] {
      RequestStaysInStepExactlyWhen(disk, InstalledVersion(disk), reqs[0]);
      var installed := InstalledVersion(disk);
      if AlwaysInStep(disk, reqs) {
        forall oracle: nat -> Outcome
          ensures AllInStep(AfterRequest(disk, installed, reqs[0], oracle))
          ensures RequestsKeep(Next(disk, reqs[0], oracle), reqs[1..])
        {
          assert AlwaysInStep(Next(disk, reqs[0], oracle), reqs[1..]);
          HandlerStaysInStepExactlyWhen(Next(disk, reqs[0], oracle), reqs[1..]);
        }
      }
      if RequestsKeep(disk, reqs) {
        forall oracle: nat -> Outcome ensures AlwaysInStep(Next(disk, reqs[0], oracle), reqs[1..]) {
          assert AllInStep(AfterRequest(disk, installed, reqs[0], oracle));
          HandlerStaysInStepExactlyWhen(Next(disk, reqs[0], oracle), reqs[1..]);
        }
      }
    }
  }
}
