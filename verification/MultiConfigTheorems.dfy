/** Multi-config handlers: when the handler's state and the states of its extensions agree. */
module MultiConfigTheorems {
  import opened Common
  import opened HandlerProtocol
  import opened HandlerTheorems

  ghost predicate AnyExtensionEnabled(disk: Disk, v: Version) {
    exists name :: ExtensionEnabled(disk, v, name)
  }

  /** The handler is Enabled exactly when one of its extensions is. */
  ghost predicate InStep(disk: Disk, v: Version) {
    StateOf(disk, v) == Enabled <==> AnyExtensionEnabled(disk, v)
  }

  // ----- Single actions -----

  /** The extension is enabled and not the one being disabled. */
  ghost predicate EnabledBeside(disk: Disk, v: Version, disabled: Option<Setting>, name: string) {
    ExtensionEnabled(disk, v, name) && (disabled.Some? ==> name != disabled.value.name)
  }

  /** An enable names an extension or finds one enabled. A disable leaves an extension enabled that the goal
      state lists, or leaves none enabled. */
  ghost predicate KeepsStep(disk: Disk, v: Version, a: Action) {
    match a
    case MarkEnabled(_, _, extension) => extension.Some? || AnyExtensionEnabled(disk, v)
    case MarkDisabled(_, h, extension) =>
      || (exists i :: 0 <= i < |h.settings| && EnabledBeside(disk, v, extension, h.settings[i].name))
      || (forall name :: !EnabledBeside(disk, v, extension, name))
    case _ => true
  }

  lemma {:induction false} SomeSettingEnabled(disk: Disk, v: Version, settings: seq<Setting>)
    ensures AnySettingEnabled(disk, v, settings)
       <==> exists i :: 0 <= i < |settings| && ExtensionEnabled(disk, v, settings[i].name)
    decreases |settings|
  {
    if settings != [] {
      SomeSettingEnabled(disk, v, settings[1..]);
      assert forall i :: 0 <= i < |settings| - 1 ==> settings[1..][i] == settings[i + 1];
    }
  }

  /** The saved extension states after the first part of a disable. */
  lemma {:induction false} ExtensionIsDisabled(disk: Disk, v: Version, h: Handler, extension: Option<Setting>)
    requires h.multiConfig
    ensures var mid := ApplyAll(disk, ExtensionWrites(v, h, extension));
            && StateOf(mid, v) == StateOf(disk, v)
            && (forall name :: ExtensionEnabled(mid, v, name) <==> EnabledBeside(disk, v, extension, name))
  {
    var ws := ExtensionWrites(v, h, extension);
    if extension.Some? {
      assert ws == [ws[0]];
      ApplyOne(disk, ws[0]);
    }
  }

  lemma {:induction false} DisableKeepsStepExactlyWhen(disk: Disk, v: Version, h: Handler, extension: Option<Setting>)
    requires h.multiConfig && (IsInstalled(StateOf(disk, v)) ==> InStep(disk, v))
    ensures var after := ApplyAll(disk, Writes(disk, MarkDisabled(v, h, extension)));
            && ((IsInstalled(StateOf(after, v)) ==> InStep(after, v)) <==>
                  KeepsStep(disk, v, MarkDisabled(v, h, extension)))
            && (IsInstalled(StateOf(disk, v)) ==> IsInstalled(StateOf(after, v)))
  {
    var ws := ExtensionWrites(v, h, extension);
    var mid := ApplyAll(disk, ws);
    ExtensionIsDisabled(disk, v, h, extension);
    SomeSettingEnabled(mid, v, h.settings);
    if AnySettingEnabled(mid, v, h.settings) {
      var i :| 0 <= i < |h.settings| && ExtensionEnabled(mid, v, h.settings[i].name);
      assert EnabledBeside(disk, v, extension, h.settings[i].name);
      assert ExtensionEnabled(disk, v, h.settings[i].name);
    } else {
      ApplyAllConcat(disk, ws, [SetState(v, Installed)]);
      ApplyOne(mid, SetState(v, Installed));
      assert forall i :: 0 <= i < |h.settings| ==> !EnabledBeside(disk, v, extension, h.settings[i].name);
      var after := Apply(mid, SetState(v, Installed));
      assert forall name :: ExtensionEnabled(after, v, name) <==> EnabledBeside(disk, v, extension, name);
    }
  }

  lemma {:induction false} EnableKeepsStepExactlyWhen(disk: Disk, v: Version, h: Handler, extension: Option<Setting>)
    requires h.multiConfig
    ensures var after := ApplyAll(disk, Writes(disk, MarkEnabled(v, h, extension)));
            && StateOf(after, v) == Enabled && (InStep(after, v) <==> KeepsStep(disk, v, MarkEnabled(v, h, extension)))
  {
    var ws := Writes(disk, MarkEnabled(v, h, extension));
    var after := ApplyAll(disk, ws);
    if extension.Some? {
      assert ws == [ws[0]] + [ws[1]];
      ApplyAllConcat(disk, [ws[0]], [ws[1]]);
      ApplyOne(disk, ws[0]);
      ApplyOne(Apply(disk, ws[0]), ws[1]);
      assert ExtensionEnabled(after, v, extension.value.name);
    } else {
      ApplyOne(disk, ws[0]);
      assert forall name :: ExtensionEnabled(after, v, name) <==> ExtensionEnabled(disk, v, name);
    }
  }

  // ----- Requests about the installed version -----

  ghost predicate AboutInstalled(req: Request, v: Version) {
    req.h.multiConfig && (req.operation == Disable || (req.operation == Enable && req.version == v))
  }

  /** The checks that come before the request's only effect. */
  function Checks(req: Request): nat {
    if req.operation == Enable then 2 else 1
  }

  ghost function EffectPlan(disk: Disk, v: Version, req: Request): (steps: seq<Step>)
    requires AboutInstalled(req, v)
    ensures |steps| <= 1
  {
    if req.operation == Enable then ExtensionPlan(v, req.h, req.extension)
    else DisablePlan(disk, v, req.h, req.extension)
  }

  /** What the request does to the disk: nothing if a check fails, and otherwise what its last step does. */
  ghost function EffectOf(disk: Disk, v: Version, req: Request, oracle: nat -> Outcome): Action
    requires AboutInstalled(req, v)
  {
    var n, steps := Checks(req), EffectPlan(disk, v, req);
    if oracle(0) != Success || (n == 2 && oracle(1) != Success) || steps == [] then Nothing
    else Perform(disk, steps[0], oracle(n)).0
  }

  lemma {:induction false} FailedCheck(disk: Disk, plan: seq<Step>, k: nat, oracle: nat -> Outcome)
    requires oracle(k) != Success
    ensures Execute(disk, [CHECK] + plan, k, oracle).0 == []
  {
    ExecuteStep(disk, CHECK, plan, k, oracle);
  }

  lemma {:induction false} PassedCheck(disk: Disk, plan: seq<Step>, k: nat, oracle: nat -> Outcome)
    requires oracle(k) == Success
    ensures Execute(disk, [CHECK] + plan, k, oracle) == Execute(disk, plan, k + 1, oracle)
  {
    assert ([CHECK] + plan)[1..] == plan;
    QuietStep(disk, [CHECK] + plan, k, oracle);
  }

  lemma {:induction false} OnlyStep(disk: Disk, step: Step, k: nat, oracle: nat -> Outcome)
    ensures Execute(disk, [step], k, oracle).0 == Writes(disk, Perform(disk, step, oracle(k)).0)
  {
    var ws := Writes(disk, Perform(disk, step, oracle(k)).0);
    assert [step][1..] == [] && ws + [] == ws;
  }

  lemma {:induction false} RequestHasItsEffect(disk: Disk, v: Version, req: Request, oracle: nat -> Outcome)
    requires IsInstalled(StateOf(disk, v)) && AboutInstalled(req, v)
    ensures Execute(disk, RequestPlan(disk, Some(v), req), 0, oracle).0 == Writes(disk, EffectOf(disk, v, req, oracle))
  {
    var steps := EffectPlan(disk, v, req);
    var rest := if req.operation == Enable then [CHECK] + steps else steps;
    assert RequestPlan(disk, Some(v), req) == [CHECK] + rest;
    if oracle(0) != Success {
      FailedCheck(disk, rest, 0, oracle);
    } else {
      PassedCheck(disk, rest, 0, oracle);
      if req.operation == Enable {
        if oracle(1) != Success {
          FailedCheck(disk, steps, 1, oracle);
        } else {
          PassedCheck(disk, steps, 1, oracle);
        }
      }
      if steps != [] {
        assert steps == [steps[0]];
        OnlyStep(disk, steps[0], Checks(req), oracle);
      }
    }
  }

  /** A request about the installed version of a multi-config handler, with or without an extension, whatever fails,
      keeps the two levels in step exactly when its effect, judged on the disk before, does. */
  lemma {:induction false} RequestKeepsStepExactlyWhen(disk: Disk, v: Version, req: Request, oracle: nat -> Outcome)
    requires InStep(disk, v) && IsInstalled(StateOf(disk, v)) && AboutInstalled(req, v)
    ensures var after := ApplyAll(disk, Execute(disk, RequestPlan(disk, Some(v), req), 0, oracle).0);
            && (InStep(after, v) <==> KeepsStep(disk, v, EffectOf(disk, v, req, oracle)))
            && IsInstalled(StateOf(after, v))
  {
    RequestHasItsEffect(disk, v, req, oracle);
    var a := EffectOf(disk, v, req, oracle);
    match a {
      case Nothing => assert ApplyAll(disk, []) == disk;
      case MarkEnabled(_, _, extension) => EnableKeepsStepExactlyWhen(disk, v, req.h, extension);
      case MarkDisabled(_, _, extension) => DisableKeepsStepExactlyWhen(disk, v, req.h, extension);
    }
  }

  /** Enabling a multi-config handler that comes without settings keeps it in step exactly when an extension is
      enabled already, or a check or the enable command fails. */
  lemma {:induction false} BareEnableKeepsStepExactlyWhen(disk: Disk, v: Version, h: Handler, p: Package,
                                                          oracle: nat -> Outcome)
    requires InStep(disk, v) && IsInstalled(StateOf(disk, v)) && h.multiConfig
    ensures var plan := RequestPlan(disk, Some(v), Request(Enable, v, h, None, p));
            var after := ApplyAll(disk, Execute(disk, plan, 0, oracle).0);
            InStep(after, v) <==>
              AnyExtensionEnabled(disk, v) || oracle(0) != Success || oracle(1) != Success || oracle(2) != Success
  {
    RequestKeepsStepExactlyWhen(disk, v, Request(Enable, v, h, None, p), oracle);
  }

  // ----- Runs of requests -----

  ghost function AfterJob(disk: Disk, job: Job): Disk {
    ApplyAll(disk, Execute(disk, JobPlan(disk, job), 0, job.oracle).0)
  }

  ghost predicate AllAbout(jobs: seq<Job>, v: Version) {
    forall i :: 0 <= i < |jobs| ==> AboutInstalled(jobs[i].req, v)
  }

  /** In step now and after every job. */
  ghost predicate InStepThroughout(disk: Disk, v: Version, jobs: seq<Job>)
    decreases |jobs|
  {
    InStep(disk, v) && (jobs == [] || InStepThroughout(AfterJob(disk, jobs[0]), v, jobs[1..]))
  }

  /** Every effect of the run keeps step, judged on the disk it meets. */
  ghost predicate EffectsKeepStep(disk: Disk, v: Version, jobs: seq<Job>)
    requires AllAbout(jobs, v)
    decreases |jobs|
  {
    jobs == [] ||
    (KeepsStep(disk, v, EffectOf(disk, v, jobs[0].req, jobs[0].oracle))
     && EffectsKeepStep(AfterJob(disk, jobs[0]), v, jobs[1..]))
  }

  lemma {:induction false} OthersUnchanged(disk: Disk, v: Version, a: Action)
    requires a.Nothing? || ((a.MarkEnabled? || a.MarkDisabled?) && a.v == v)
    ensures var after := ApplyAll(disk, Writes(disk, a));
            forall w :: w != v && w in after ==> w in disk && after[w] == disk[w]
  {
    var ws := Writes(disk, a);
    assert |ws| <= 2 && forall i :: 0 <= i < |ws| ==> ws[i].v == v;
    if |ws| == 1 {
      assert ws == [ws[0]];
      ApplyOne(disk, ws[0]);
    } else if |ws| == 2 {
      assert ws == [ws[0]] + [ws[1]];
      ApplyAllConcat(disk, [ws[0]], [ws[1]]);
      ApplyOne(disk, ws[0]);
      ApplyOne(Apply(disk, ws[0]), ws[1]);
    }
  }

  /** Such a request leaves v the installed version. */
  lemma {:induction false} StaysInstalled(disk: Disk, v: Version, job: Job)
    requires IsInstalledVersion(disk, Some(v)) && InStep(disk, v) && AboutInstalled(job.req, v)
    ensures JobPlan(disk, job) == RequestPlan(disk, Some(v), job.req)
    ensures IsInstalledVersion(AfterJob(disk, job), Some(v))
  {
    assert InstalledVersion(disk) == Some(v);
    RequestHasItsEffect(disk, v, job.req, job.oracle);
    RequestKeepsStepExactlyWhen(disk, v, job.req, job.oracle);
    OthersUnchanged(disk, v, EffectOf(disk, v, job.req, job.oracle));
  }

  /** In every run of such requests, while v stays the installed version, the handler is Enabled exactly when one of its
      extensions is, after every request, if and only if no effect of the run breaks that. */
  lemma {:induction false} RunStaysInStepExactlyWhen(disk: Disk, v: Version, jobs: seq<Job>)
    requires InStep(disk, v) && IsInstalledVersion(disk, Some(v)) && AllAbout(jobs, v)
    ensures InStepThroughout(disk, v, jobs) <==> EffectsKeepStep(disk, v, jobs)
    decreases |jobs|
  {
    if jobs != [] {
      var job := jobs[0];
      StaysInstalled(disk, v, job);
      RequestKeepsStepExactlyWhen(disk, v, job.req, job.oracle);
      if InStep(AfterJob(disk, job), v) {
        RunStaysInStepExactlyWhen(AfterJob(disk, job), v, jobs[1..]);
      }
    }
  }

  lemma {:induction false} InStepAtTheEnd(disk: Disk, v: Version, jobs: seq<Job>)
    requires InStepThroughout(disk, v, jobs)
    ensures InStep(ApplyAll(disk, RunJobs(disk, jobs)), v)
    decreases |jobs|
  {
    if jobs != [] {
      InStepAtTheEnd(AfterJob(disk, jobs[0]), v, jobs[1..]);
      var ws := Execute(disk, JobPlan(disk, jobs[0]), 0, jobs[0].oracle).0;
      ApplyAllConcat(disk, ws, RunJobs(ApplyAll(disk, ws), jobs[1..]));
    }
  }

  ghost predicate Named(settings: seq<Setting>, name: string) {
    exists i :: 0 <= i < |settings| && settings[i].name == name
  }

  /** The goal state lists every extension that is saved as enabled. */
  ghost predicate Covers(settings: seq<Setting>, disk: Disk, v: Version) {
    forall name :: ExtensionEnabled(disk, v, name) ==> Named(settings, name)
  }

  /** Every request lists every enabled extension, and an enable without settings finds one enabled. */
  ghost predicate CoveredRun(disk: Disk, v: Version, jobs: seq<Job>)
    decreases |jobs|
  {
    jobs == [] ||
    (Covers(jobs[0].req.h.settings, disk, v)
     && (jobs[0].req.operation == Enable && jobs[0].req.extension.None? ==> AnyExtensionEnabled(disk, v))
     && CoveredRun(AfterJob(disk, jobs[0]), v, jobs[1..]))
  }

  lemma {:induction false} CoveredDisableKeeps(disk: Disk, v: Version, h: Handler, extension: Option<Setting>)
    requires Covers(h.settings, disk, v)
    ensures KeepsStep(disk, v, MarkDisabled(v, h, extension))
  {
    if name :| EnabledBeside(disk, v, extension, name) {
      var i :| 0 <= i < |h.settings| && h.settings[i].name == name;
      assert EnabledBeside(disk, v, extension, h.settings[i].name);
    }
  }

  lemma {:induction false} CoveredEffect(disk: Disk, v: Version, req: Request, oracle: nat -> Outcome)
    requires AboutInstalled(req, v) && Covers(req.h.settings, disk, v)
    requires req.operation == Enable && req.extension.None? ==> AnyExtensionEnabled(disk, v)
    ensures KeepsStep(disk, v, EffectOf(disk, v, req, oracle))
  {
    var a := EffectOf(disk, v, req, oracle);
    if a.MarkDisabled? {
      CoveredDisableKeeps(disk, v, a.h, a.extension);
    }
  }

  lemma {:induction false} CoveredEffects(disk: Disk, v: Version, jobs: seq<Job>)
    requires AllAbout(jobs, v) && CoveredRun(disk, v, jobs)
    ensures EffectsKeepStep(disk, v, jobs)
    decreases |jobs|
  {
    if jobs != [] {
      CoveredEffect(disk, v, jobs[0].req, jobs[0].oracle);
      CoveredEffects(AfterJob(disk, jobs[0]), v, jobs[1..]);
    }
  }

  /** In particular after any covered run of enables and disables, failing, succeeding or with errors ignored. */
  lemma {:induction false} HandlerStaysInStep(disk: Disk, v: Version, jobs: seq<Job>)
    requires InStep(disk, v) && IsInstalledVersion(disk, Some(v)) && AllAbout(jobs, v) && CoveredRun(disk, v, jobs)
    ensures InStep(ApplyAll(disk, RunJobs(disk, jobs)), v)
  {
    CoveredEffects(disk, v, jobs);
    RunStaysInStepExactlyWhen(disk, v, jobs);
    InStepAtTheEnd(disk, v, jobs);
  }

  // ----- Installing a version anew -----

  /** Leaves the extensions of v as they are and v not Enabled. */
  predicate LeavesExtensions(a: Action, v: Version) {
    match a
    case Nothing => true
    case Put(w, state) => w == v ==> state != Enabled
    case Remove(w) => w != v
    case MarkEnabled(w, _, _) => w != v
    case MarkDisabled(w, _, _) => w != v
  }

  /** A step before the new version's extension is handled; an error may also cost the directory. */
  predicate PreparesStep(step: Step, v: Version) {
    match step
    case Always(a) => LeavesExtensions(a, v)
    case Command(a, b, _) => LeavesExtensions(a, v) && (LeavesExtensions(b, v) || b == Remove(v))
    case DisableUnlessDisabled(w, _, _) => w != v
    case Raise => true
  }

  ghost predicate Prepares(plan: seq<Step>, v: Version) {
    forall i :: 0 <= i < |plan| ==> PreparesStep(plan[i], v)
  }

  /** No extension of v is enabled, and v is not. */
  ghost predicate Clean(disk: Disk, v: Version) {
    StateOf(disk, v) != Enabled && !AnyExtensionEnabled(disk, v)
  }

  lemma {:induction false} WriteElsewhere(disk: Disk, v: Version, ws: seq<Write>)
    requires |ws| <= 2 && forall i :: 0 <= i < |ws| ==> ws[i].v != v
    ensures StateOf(ApplyAll(disk, ws), v) == StateOf(disk, v)
    ensures ExtensionsOf(ApplyAll(disk, ws), v) == ExtensionsOf(disk, v)
  {
    if |ws| == 1 {
      assert ws == [ws[0]];
      ApplyOne(disk, ws[0]);
    } else if |ws| == 2 {
      assert ws == [ws[0]] + [ws[1]];
      ApplyAllConcat(disk, [ws[0]], [ws[1]]);
      ApplyOne(disk, ws[0]);
      ApplyOne(Apply(disk, ws[0]), ws[1]);
    }
  }

  lemma {:induction false} ActionLeavesExtensions(disk: Disk, v: Version, a: Action)
    requires LeavesExtensions(a, v)
    ensures var after := ApplyAll(disk, Writes(disk, a));
            && ExtensionsOf(after, v) == ExtensionsOf(disk, v)
            && (StateOf(disk, v) != Enabled ==> StateOf(after, v) != Enabled)
  {
    var ws := Writes(disk, a);
    if a.Put? && a.v == v {
      ApplyOne(disk, ws[0]);
    } else {
      WriteElsewhere(disk, v, ws);
    }
  }

  lemma {:induction false} ActionKeepsClean(disk: Disk, v: Version, a: Action)
    requires Clean(disk, v) && (LeavesExtensions(a, v) || a == Remove(v))
    ensures Clean(ApplyAll(disk, Writes(disk, a)), v)
  {
    if a == Remove(v) {
      ApplyOne(disk, RemoveDirectory(v));
    } else {
      ActionLeavesExtensions(disk, v, a);
      var after := ApplyAll(disk, Writes(disk, a));
      assert forall name :: ExtensionEnabled(after, v, name) <==> ExtensionEnabled(disk, v, name);
    }
  }

  lemma {:induction false} PreparingKeepsClean(disk: Disk, plan: seq<Step>, k: nat, oracle: nat -> Outcome, v: Version)
    requires Clean(disk, v) && Prepares(plan, v)
    ensures Clean(ApplyAll(disk, Execute(disk, plan, k, oracle).0), v)
    decreases |plan|
  {
    if plan != [] {
      assert PreparesStep(plan[0], v);
      var (a, o) := Perform(disk, plan[0], oracle(k));
      ActionKeepsClean(disk, v, a);
      var ws := Writes(disk, a);
      if o == Success {
        PreparingKeepsClean(ApplyAll(disk, ws), plan[1..], k + 1, oracle, v);
        ApplyAllConcat(disk, ws, Execute(ApplyAll(disk, ws), plan[1..], k + 1, oracle).0);
      }
    }
  }

  /** When everything goes well, preparation succeeds and keeps the extensions saved in the directory. */
  lemma {:induction false} PreparingSucceeds(disk: Disk, plan: seq<Step>, k: nat, oracle: nat -> Outcome, v: Version)
    requires Prepares(plan, v) && (forall i :: 0 <= i < |plan| ==> !plan[i].Raise?)
    requires forall i :: k <= i < k + |plan| ==> oracle(i) == Success
    ensures var (ws, o) := Execute(disk, plan, k, oracle);
            o == Success && ExtensionsOf(ApplyAll(disk, ws), v) == ExtensionsOf(disk, v)
    decreases |plan|
  {
    if plan != [] {
      assert PreparesStep(plan[0], v) && !plan[0].Raise?;
      var (a, o) := Perform(disk, plan[0], oracle(k));
      ActionLeavesExtensions(disk, v, a);
      var ws := Writes(disk, a);
      PreparingSucceeds(ApplyAll(disk, ws), plan[1..], k + 1, oracle, v);
      ApplyAllConcat(disk, ws, Execute(ApplyAll(disk, ws), plan[1..], k + 1, oracle).0);
    }
  }

  /** The request installs a version of a multi-config handler and handles one extension of it, if it comes with any. */
  ghost predicate Installs(disk: Disk, installed: Option<Version>, req: Request) {
    && req.operation == Enable && req.h.multiConfig
    && IsInstalledVersion(disk, installed) && !IsInstalled(StateOf(disk, req.version))
  }

  /** Everything up to the step that makes the new version Installed, by a fresh install or by an update. */
  function Preparation(disk: Disk, installed: Option<Version>, req: Request): seq<Step> {
    var v, p := req.version, req.p;
    if installed.None? then [CHECK] + SetupPlan(v)
    else [CHECK] + SetupPlan(v) + LeaveOldPlan(disk, installed.value, v, req.h, p) + [RemovalStep(installed.value)]
         + ([CHECK] + if p.updateWithInstall then [Command(Put(v, Installed), Nothing, false)] else [])
  }

  function InstallStep(installed: Option<Version>, v: Version): Step {
    if installed.None? then Command(Put(v, Installed), Nothing, false) else Always(Put(v, Installed))
  }

  lemma {:induction false} InstallingPlan(disk: Disk, installed: Option<Version>, req: Request)
    requires Installs(disk, installed, req)
    ensures RequestPlan(disk, installed, req) ==
              Preparation(disk, installed, req)
                + ([InstallStep(installed, req.version)] + ExtensionPlan(req.version, req.h, req.extension))
  {
  }

  lemma {:induction false} DisableOldPrepares(prior: Version, h: Handler, p: Package, extensions: seq<Setting>,
                                              v: Version)
    requires prior != v
    ensures Prepares(DisableOld(prior, h, p, extensions), v)
    ensures forall i :: 0 <= i < |DisableOld(prior, h, p, extensions)| ==>
                !DisableOld(prior, h, p, extensions)[i].Raise?
    decreases |extensions|
  {
    if extensions != [] {
      DisableOldPrepares(prior, h, p, extensions[1..], v);
    }
  }

  lemma {:induction false} LeaveOldPrepares(disk: Disk, prior: Version, v: Version, h: Handler, p: Package)
    requires prior != v
    ensures var leave := LeaveOldPlan(disk, prior, v, h, p);
            Prepares(leave, v) && forall i :: 0 <= i < |leave| ==> !leave[i].Raise?
  {
    DisableOldPrepares(prior, h, p, EnabledSettings(disk, prior, h, h.settings), v);
  }

  lemma {:induction false} PreparationPrepares(disk: Disk, installed: Option<Version>, req: Request)
    requires Installs(disk, installed, req)
    ensures var plan := Preparation(disk, installed, req);
            Prepares(plan, req.version) && forall i :: 0 <= i < |plan| ==> !plan[i].Raise?
  {
    if installed.Some? {
      LeaveOldPrepares(disk, installed.value, req.version, req.h, req.p);
    }
  }

  /** Handling an extension of a version on which none is enabled ends in step. */
  lemma {:induction false} ExtensionOnClean(disk: Disk, v: Version, h: Handler, e: Setting, k: nat,
                                            oracle: nat -> Outcome)
    requires Clean(disk, v) && h.multiConfig
    ensures InStep(ApplyAll(disk, Execute(disk, ExtensionPlan(v, h, Some(e)), k, oracle).0), v)
  {
    var plan := ExtensionPlan(v, h, Some(e));
    assert plan == [plan[0]];
    OnlyStep(disk, plan[0], k, oracle);
    EnableKeepsStepExactlyWhen(disk, v, h, Some(e));
    assert !ExtensionEnabled(disk, v, e.name);
    assert ApplyAll(disk, []) == disk;
  }

  /** The plan succeeds and leaves this disk. */
  ghost predicate Leads(disk: Disk, plan: seq<Step>, k: nat, oracle: nat -> Outcome, next: Disk) {
    var r := Execute(disk, plan, k, oracle);
    r.1 == Success && ApplyAll(disk, r.0) == next
  }

  /** After a plan that succeeded the next one starts from the disk it left. */
  lemma {:induction false} GoesOn(disk: Disk, plan: seq<Step>, more: seq<Step>, k: nat, oracle: nat -> Outcome,
                                  next: Disk)
    requires Leads(disk, plan, k, oracle, next)
    ensures ApplyAll(disk, Execute(disk, plan + more, k, oracle).0)
         == ApplyAll(next, Execute(next, more, k + |plan|, oracle).0)
  {
    ExecuteConcat(disk, plan, more, k, oracle);
    ApplyAllConcat(disk, Execute(disk, plan, k, oracle).0, Execute(next, more, k + |plan|, oracle).0);
  }

  /** A plan either fails, and its disk stays, or goes on with the next one from there. */
  lemma {:induction false} FailsOrGoesOn(disk: Disk, plan: seq<Step>, more: seq<Step>, k: nat, oracle: nat -> Outcome)
    returns (next: Disk)
    ensures next == ApplyAll(disk, Execute(disk, plan, k, oracle).0)
    ensures ApplyAll(disk, Execute(disk, plan + more, k, oracle).0)
         == if Execute(disk, plan, k, oracle).1 != Success then next
            else ApplyAll(next, Execute(next, more, k + |plan|, oracle).0)
  {
    next := ApplyAll(disk, Execute(disk, plan, k, oracle).0);
    ExecuteConcat(disk, plan, more, k, oracle);
    if Execute(disk, plan, k, oracle).1 == Success {
      GoesOn(disk, plan, more, k, oracle, next);
    }
  }

  lemma {:induction false} PreparedThenHandled(disk: Disk, body: seq<Step>, v: Version, h: Handler, e: Setting,
                                               oracle: nat -> Outcome)
    requires Clean(disk, v) && Prepares(body, v) && h.multiConfig
    ensures InStep(ApplyAll(disk, Execute(disk, body + ExtensionPlan(v, h, Some(e)), 0, oracle).0), v)
  {
    var last := ExtensionPlan(v, h, Some(e));
    PreparingKeepsClean(disk, body, 0, oracle, v);
    ExtensionOnClean(ApplyAll(disk, Execute(disk, body, 0, oracle).0), v, h, e, |body|, oracle);
    EndsInStep(disk, body, last, oracle, v);
  }

  lemma {:induction false} EndsInStep(disk: Disk, body: seq<Step>, last: seq<Step>, oracle: nat -> Outcome, v: Version)
    requires var next := ApplyAll(disk, Execute(disk, body, 0, oracle).0);
             Clean(next, v) && InStep(ApplyAll(next, Execute(next, last, |body|, oracle).0), v)
    ensures InStep(ApplyAll(disk, Execute(disk, body + last, 0, oracle).0), v)
  {
    var next := FailsOrGoesOn(disk, body, last, 0, oracle);
    CleanOrHandled(next, ApplyAll(next, Execute(next, last, |body|, oracle).0),
                   ApplyAll(disk, Execute(disk, body + last, 0, oracle).0), v);
  }

  lemma {:induction false} CleanOrHandled(next: Disk, later: Disk, end: Disk, v: Version)
    requires Clean(next, v) && InStep(later, v) && (end == next || end == later)
    ensures InStep(end, v)
  {
  }

  lemma {:induction false} CleanInstallIsInStep(disk: Disk, installed: Option<Version>, req: Request,
                                                oracle: nat -> Outcome)
    requires Installs(disk, installed, req) && Clean(disk, req.version) && req.extension.Some?
    ensures InStep(ApplyAll(disk, Execute(disk, RequestPlan(disk, installed, req), 0, oracle).0), req.version)
  {
    var body := Preparation(disk, installed, req) + [InstallStep(installed, req.version)];
    InstallingPlan(disk, installed, req);
    PreparationPrepares(disk, installed, req);
    assert RequestPlan(disk, installed, req) == body + ExtensionPlan(req.version, req.h, req.extension);
    PreparedThenHandled(disk, body, req.version, req.h, req.extension.value, oracle);
  }

  /** Everything succeeds up to the extension's own step, which fails. */
  function FailsLast(n: nat): nat -> Outcome {
    k => if k == n then OtherError else Success
  }

  lemma {:induction false} InstallStepWorks(disk: Disk, installed: Option<Version>, v: Version, k: nat,
                                            oracle: nat -> Outcome)
    requires oracle(k) == Success
    ensures var (ws, o) := Execute(disk, [InstallStep(installed, v)], k, oracle);
            && o == Success && StateOf(ApplyAll(disk, ws), v) == Installed
            && ExtensionsOf(ApplyAll(disk, ws), v) == ExtensionsOf(disk, v)
  {
    OnlyStep(disk, InstallStep(installed, v), k, oracle);
    ApplyOne(disk, SetState(v, Installed));
  }

  lemma {:induction false} PreparedAndInstalled(disk: Disk, body: seq<Step>, installed: Option<Version>, v: Version,
                                                last: seq<Step>, oracle: nat -> Outcome) returns (done: Disk)
    requires Prepares(body, v) && (forall i :: 0 <= i < |body| ==> !body[i].Raise?)
    requires forall k :: 0 <= k <= |body| ==> oracle(k) == Success
    ensures StateOf(done, v) == Installed && ExtensionsOf(done, v) == ExtensionsOf(disk, v)
    ensures ApplyAll(disk, Execute(disk, body + ([InstallStep(installed, v)] + last), 0, oracle).0)
         == ApplyAll(done, Execute(done, last, |body| + 1, oracle).0)
  {
    var install := [InstallStep(installed, v)];
    PreparingSucceeds(disk, body, 0, oracle, v);
    var ready := ApplyAll(disk, Execute(disk, body, 0, oracle).0);
    InstallStepWorks(ready, installed, v, |body|, oracle);
    done := ApplyAll(ready, Execute(ready, install, |body|, oracle).0);
    GoesOn(disk, body, install + last, 0, oracle, ready);
    GoesOn(ready, install, last, |body|, oracle, done);
  }

  /** When everything before the extension's own step goes well, that step meets v Installed, with the extensions its
      directory had. */
  lemma {:induction false} InstallReached(disk: Disk, installed: Option<Version>, req: Request, oracle: nat -> Outcome)
    returns (done: Disk)
    requires Installs(disk, installed, req)
    requires forall k :: 0 <= k <= |Preparation(disk, installed, req)| ==> oracle(k) == Success
    ensures StateOf(done, req.version) == Installed
    ensures ExtensionsOf(done, req.version) == ExtensionsOf(disk, req.version)
    ensures var plan, n := ExtensionPlan(req.version, req.h, req.extension), |Preparation(disk, installed, req)| + 1;
            ApplyAll(disk, Execute(disk, RequestPlan(disk, installed, req), 0, oracle).0)
              == ApplyAll(done, Execute(done, plan, n, oracle).0)
  {
    InstallingPlan(disk, installed, req);
    PreparationPrepares(disk, installed, req);
    done := PreparedAndInstalled(disk, Preparation(disk, installed, req), installed, req.version,
                                 ExtensionPlan(req.version, req.h, req.extension), oracle);
  }

  lemma {:induction false} SameExtensions(disk: Disk, after: Disk, v: Version)
    requires ExtensionsOf(after, v) == ExtensionsOf(disk, v)
    ensures AnyExtensionEnabled(after, v) <==> AnyExtensionEnabled(disk, v)
  {
    assert forall name :: ExtensionEnabled(after, v, name) <==> ExtensionEnabled(disk, v, name);
  }

  lemma {:induction false} StaleInstallBreaksStep(disk: Disk, installed: Option<Version>, req: Request)
    requires Installs(disk, installed, req) && AnyExtensionEnabled(disk, req.version)
    ensures var oracle := FailsLast(|Preparation(disk, installed, req)| + 1);
            var after := ApplyAll(disk, Execute(disk, RequestPlan(disk, installed, req), 0, oracle).0);
            StateOf(after, req.version) == Installed && !InStep(after, req.version)
  {
    var n := |Preparation(disk, installed, req)| + 1;
    var done := InstallReached(disk, installed, req, FailsLast(n));
    var last := ExtensionPlan(req.version, req.h, req.extension);
    assert last == [last[0]];
    OnlyStep(done, last[0], n, FailsLast(n));
    assert ApplyAll(done, []) == done;
    SameExtensions(disk, done, req.version);
  }

  lemma {:induction false} BareInstallBreaksStep(disk: Disk, installed: Option<Version>, req: Request)
    requires Installs(disk, installed, req) && req.extension.None? && !AnyExtensionEnabled(disk, req.version)
    ensures var after := ApplyAll(disk, Execute(disk, RequestPlan(disk, installed, req), 0, (k: nat) => Success).0);
            StateOf(after, req.version) == Enabled && !InStep(after, req.version)
  {
    var oracle := (k: nat) => Success;
    var done := InstallReached(disk, installed, req, oracle);
    OnlyStep(done, ExtensionPlan(req.version, req.h, None)[0], |Preparation(disk, installed, req)| + 1, oracle);
    EnableKeepsStepExactlyWhen(done, req.version, req.h, None);
    SameExtensions(disk, done, req.version);
  }

  /** Installing a version that is not installed, by a fresh install or by an update, ends in step whatever its commands
      do exactly when it comes with settings and no extension is saved as enabled in its directory. */
  lemma {:induction false} InstallStaysInStepExactlyWhen(disk: Disk, installed: Option<Version>, req: Request)
    requires Installs(disk, installed, req)
    ensures (forall oracle: nat -> Outcome ::
               var after := ApplyAll(disk, Execute(disk, RequestPlan(disk, installed, req), 0, oracle).0);
               IsInstalled(StateOf(after, req.version)) ==> InStep(after, req.version))
       <==> req.extension.Some? && !AnyExtensionEnabled(disk, req.version)
  {
    if AnyExtensionEnabled(disk, req.version) {
      StaleInstallBreaksStep(disk, installed, req);
    } else if req.extension.None? {
      BareInstallBreaksStep(disk, installed, req);
    } else {
      forall oracle: nat -> Outcome
        ensures InStep(ApplyAll(disk, Execute(disk, RequestPlan(disk, installed, req), 0, oracle).0), req.version)
      {
        CleanInstallIsInStep(disk, installed, req, oracle);
      }
    }
  }

  // ----- A directory that still records an enabled extension -----

  /** A downgrade from 2 to 1 whose disable fails (and is tolerated) and whose update command fails. */
  const ONE_SETTING := Handler(true, [Setting("a", RunExtension)])
  const DOWNGRADE := Request(Enable, 1, ONE_SETTING, Some(Setting("a", RunExtension)), Package(true, false))
  const BEFORE_DOWNGRADE: Disk := map[2 := HandlerDir(Enabled, map["a" := true])]
  const AFTER_DOWNGRADE: Disk := map[1 := HandlerDir(NotInstalled, map[]),
                                     2 := HandlerDir(FailedUpgrade, map["a" := true])]

  const OLD_DISABLE := Command(MarkDisabled(2, ONE_SETTING, Some(Setting("a", RunExtension))), Nothing, true)
  const OLD_UPDATE := Command(Nothing, Put(2, FailedUpgrade), false)

  function DowngradeSteps(rest: seq<Step>): seq<Step> {
    [CHECK, CHECK] + ([Always(Put(1, NotInstalled))]
      + (PackagePlan(1) + [CHECK] + ([CHECK, CHECK, OLD_DISABLE, CHECK] + ([OLD_UPDATE] + rest))))
  }

  lemma {:induction false} LeaveTwo() returns (rest: seq<Step>)
    ensures LeaveOldPlan(BEFORE_DOWNGRADE, 2, 1, ONE_SETTING, DOWNGRADE.p)
         == [CHECK, CHECK, OLD_DISABLE, CHECK] + ([OLD_UPDATE] + rest)
  {
    var settings, p := ONE_SETTING.settings, DOWNGRADE.p;
    assert settings[1..] == [];
    assert EnabledSettings(BEFORE_DOWNGRADE, 2, ONE_SETTING, settings) == settings;
    assert DisableOld(2, ONE_SETTING, p, settings) == [CHECK, OLD_DISABLE];
    rest := OldVersionCommand(Nothing, p);
  }

  lemma {:induction false} DowngradePlan() returns (rest: seq<Step>)
    ensures RequestPlan(BEFORE_DOWNGRADE, Some(2), DOWNGRADE) == DowngradeSteps(rest)
  {
    var tail := LeaveTwo();
    var p := DOWNGRADE.p;
    rest := tail + [RemovalStep(2)] + EnterNewPlan(1, p) + ExtensionPlan(1, ONE_SETTING, DOWNGRADE.extension);
  }

  lemma {:induction false} RunDowngrade(rest: seq<Step>, oracle: nat -> Outcome)
    requires forall k :: oracle(k) == if k == 9 || k == 11 then ExtensionError else Success
    ensures Execute(BEFORE_DOWNGRADE, DowngradeSteps(rest), 0, oracle).0
         == [SetState(1, NotInstalled), SetState(2, FailedUpgrade)]
  {
    var disk := BEFORE_DOWNGRADE;
    var disable := [CHECK, CHECK, OLD_DISABLE, CHECK] + ([OLD_UPDATE] + rest);
    var fetch := PackagePlan(1) + [CHECK] + disable;
    var put := Always(Put(1, NotInstalled));
    SkipQuietSteps(disk, [CHECK, CHECK] + ([put] + fetch), 2, 0, oracle);
    assert ([CHECK, CHECK] + ([put] + fetch))[2..] == [put] + fetch;
    ExecuteStep(disk, put, fetch, 2, oracle);
    var setup := ApplyAll(disk, [SetState(1, NotInstalled)]);
    SkipQuietSteps(setup, fetch, 4, 3, oracle);
    assert fetch[4..] == disable;
    SkipQuietSteps(setup, disable, 4, 7, oracle);
    assert disable[4..] == [OLD_UPDATE] + rest;
    ExecuteStep(setup, OLD_UPDATE, rest, 11, oracle);
  }

  lemma {:induction false} FailedDowngradeKeepsExtension(oracle: nat -> Outcome)
    requires forall k :: oracle(k) == if k == 9 || k == 11 then ExtensionError else Success
    ensures ApplyAll(BEFORE_DOWNGRADE,
                     Execute(BEFORE_DOWNGRADE, RequestPlan(BEFORE_DOWNGRADE, Some(2), DOWNGRADE), 0, oracle).0)
              == AFTER_DOWNGRADE
  {
    var rest := DowngradePlan();
    RunDowngrade(rest, oracle);
    var first, second := SetState(1, NotInstalled), SetState(2, FailedUpgrade);
    assert [first, second] == [first] + [second];
    ApplyAllConcat(BEFORE_DOWNGRADE, [first], [second]);
    ApplyOne(BEFORE_DOWNGRADE, first);
    ApplyOne(Apply(BEFORE_DOWNGRADE, first), second);
  }

  /** Installing version 2 anew after that can leave it Installed while extension "a" is saved as enabled. */
  lemma {:induction false} ReinstallCanBreakStep(req: Request)
    requires req.operation == Enable && req.version == 2 && req.h.multiConfig
    ensures exists oracle: nat -> Outcome ::
              var after := ApplyAll(AFTER_DOWNGRADE,
                                    Execute(AFTER_DOWNGRADE, RequestPlan(AFTER_DOWNGRADE, None, req), 0, oracle).0);
              StateOf(after, 2) == Installed && !InStep(after, 2)
  {
    assert ExtensionEnabled(AFTER_DOWNGRADE, 2, "a");
    StaleInstallBreaksStep(AFTER_DOWNGRADE, None, req);
  }
}
