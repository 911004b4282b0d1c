/** Multi-config handlers over runs of any requests: enables, disables, updates and uninstalls. */
module MultiConfigRuns {
  import opened Common
  import opened HandlerProtocol
  import opened HandlerTheorems
  import opened MultiConfigTheorems

  /** Every installed version is Enabled exactly when one of its extensions is. */
  ghost predicate AllInStep(disk: Disk) {
    forall v :: IsInstalled(StateOf(disk, v)) ==> InStep(disk, v)
  }

  // ----- Single effects -----

  /** Whether an effect keeps step, judged on the disk it meets. */
  ghost predicate Keeps(disk: Disk, a: Action) {
    match a
    case Put(v, state) => IsInstalled(state) ==> (state == Enabled <==> AnyExtensionEnabled(disk, v))
    case MarkEnabled(v, _, _) => KeepsStep(disk, v, a)
    case MarkDisabled(v, _, _) => KeepsStep(disk, v, a)
    case _ => true
  }

  predicate MultiConfigAction(a: Action) {
    a.MarkEnabled? || a.MarkDisabled? ==> a.h.multiConfig
  }

  ghost function After(disk: Disk, a: Action): Disk {
    ApplyAll(disk, Writes(disk, a))
  }

  /** The version an effect writes to. */
  predicate Touches(a: Action, v: Version) {
    !a.Nothing? && a.v == v
  }

  lemma {:induction false} UntouchedStays(disk: Disk, a: Action, v: Version)
    requires !Touches(a, v)
    ensures StateOf(After(disk, a), v) == StateOf(disk, v) && ExtensionsOf(After(disk, a), v) == ExtensionsOf(disk, v)
  {
    WriteElsewhere(disk, v, Writes(disk, a));
  }

  lemma {:induction false} TouchedKeepsExactlyWhen(disk: Disk, a: Action, v: Version)
    requires IsInstalled(StateOf(disk, v)) ==> InStep(disk, v)
    requires MultiConfigAction(a) && Touches(a, v)
    ensures (IsInstalled(StateOf(After(disk, a), v)) ==> InStep(After(disk, a), v)) <==> Keeps(disk, a)
  {
    match a
    case Put(_, state) =>
      ApplyOne(disk, SetState(v, state));
      assert forall name :: ExtensionEnabled(After(disk, a), v, name) <==> ExtensionEnabled(disk, v, name);
    case Remove(_) => ApplyOne(disk, RemoveDirectory(v));
    case MarkEnabled(_, h, extension) => EnableKeepsStepExactlyWhen(disk, v, h, extension);
    case MarkDisabled(_, h, extension) => DisableKeepsStepExactlyWhen(disk, v, h, extension);
  }

  lemma {:induction false} EffectKeepsExactlyWhen(disk: Disk, a: Action)
    requires AllInStep(disk) && MultiConfigAction(a)
    ensures AllInStep(After(disk, a)) <==> Keeps(disk, a)
  {
    forall v | !Touches(a, v)
      ensures IsInstalled(StateOf(After(disk, a), v)) ==> InStep(After(disk, a), v)
    {
      UntouchedStays(disk, a, v);
      assert forall name :: ExtensionEnabled(After(disk, a), v, name) <==> ExtensionEnabled(disk, v, name);
    }
    if !a.Nothing? {
      TouchedKeepsExactlyWhen(disk, a, a.v);
    }
  }

  // ----- Every moment of a run -----

  /** The effects of an execution, in order. */
  function Effects(disk: Disk, plan: seq<Step>, k: nat, oracle: nat -> Outcome): seq<Action>
    decreases |plan|
  {
    if plan == [] then []
    else
      var (a, o) := Perform(disk, plan[0], oracle(k));
      [a] + if o != Success then [] else Effects(ApplyAll(disk, Writes(disk, a)), plan[1..], k + 1, oracle)
  }

  ghost function AfterAll(disk: Disk, effects: seq<Action>): Disk
    decreases |effects|
  {
    if effects == [] then disk else AfterAll(After(disk, effects[0]), effects[1..])
  }

  lemma {:induction false} AfterAllConcat(disk: Disk, first: seq<Action>, more: seq<Action>)
    ensures AfterAll(disk, first + more) == AfterAll(AfterAll(disk, first), more)
    decreases |first|
  {
    if first == [] {
      assert first + more == more;
    } else {
      assert (first + more)[0] == first[0] && (first + more)[1..] == first[1..] + more;
      AfterAllConcat(After(disk, first[0]), first[1..], more);
    }
  }

  lemma {:induction false} ExecutionIsItsEffects(disk: Disk, plan: seq<Step>, k: nat, oracle: nat -> Outcome)
    ensures ApplyAll(disk, Execute(disk, plan, k, oracle).0) == AfterAll(disk, Effects(disk, plan, k, oracle))
    decreases |plan|
  {
    if plan != [] {
      var (a, o) := Perform(disk, plan[0], oracle(k));
      var ws, next := Writes(disk, a), After(disk, a);
      if o == Success {
        var rest := Effects(next, plan[1..], k + 1, oracle);
        ExecutionIsItsEffects(next, plan[1..], k + 1, oracle);
        ApplyAllConcat(disk, ws, Execute(next, plan[1..], k + 1, oracle).0);
        assert ([a] + rest)[1..] == rest;
      } else {
        assert [a][1..] == [] && AfterAll(next, []) == next;
      }
    }
  }

  ghost function RunEffects(disk: Disk, jobs: seq<Job>): seq<Action>
    decreases |jobs|
  {
    if jobs == [] then []
    else Effects(disk, JobPlan(disk, jobs[0]), 0, jobs[0].oracle) + RunEffects(AfterJob(disk, jobs[0]), jobs[1..])
  }

  lemma {:induction false} RunIsItsEffects(disk: Disk, jobs: seq<Job>)
    ensures ApplyAll(disk, RunJobs(disk, jobs)) == AfterAll(disk, RunEffects(disk, jobs))
    decreases |jobs|
  {
    if jobs != [] {
      var job, next := jobs[0], AfterJob(disk, jobs[0]);
      ExecutionIsItsEffects(disk, JobPlan(disk, job), 0, job.oracle);
      RunIsItsEffects(next, jobs[1..]);
      ApplyAllConcat(disk, Execute(disk, JobPlan(disk, job), 0, job.oracle).0, RunJobs(next, jobs[1..]));
      AfterAllConcat(disk, Effects(disk, JobPlan(disk, job), 0, job.oracle), RunEffects(next, jobs[1..]));
    }
  }

  /** In step before, between and after the effects. */
  ghost predicate InStepThroughEffects(disk: Disk, effects: seq<Action>)
    decreases |effects|
  {
    AllInStep(disk) && (effects == [] || InStepThroughEffects(After(disk, effects[0]), effects[1..]))
  }

  ghost predicate EachKeeps(disk: Disk, effects: seq<Action>)
    decreases |effects|
  {
    effects == [] || (Keeps(disk, effects[0]) && EachKeeps(After(disk, effects[0]), effects[1..]))
  }

  ghost predicate MultiConfigActions(effects: seq<Action>) {
    forall i :: 0 <= i < |effects| ==> MultiConfigAction(effects[i])
  }

  lemma {:induction false} EffectsKeepExactlyWhen(disk: Disk, effects: seq<Action>)
    requires AllInStep(disk) && MultiConfigActions(effects)
    ensures InStepThroughEffects(disk, effects) <==> EachKeeps(disk, effects)
    decreases |effects|
  {
    if effects != [] {
      EffectKeepsExactlyWhen(disk, effects[0]);
      if Keeps(disk, effects[0]) {
        EffectsKeepExactlyWhen(After(disk, effects[0]), effects[1..]);
      }
    }
  }

  predicate MultiConfigStep(step: Step) {
    match step
    case Always(a) => MultiConfigAction(a)
    case Command(a, b, _) => MultiConfigAction(a) && MultiConfigAction(b)
    case DisableUnlessDisabled(_, h, _) => h.multiConfig
    case Raise => true
  }

  ghost predicate MultiConfigPlan(plan: seq<Step>) {
    forall i :: 0 <= i < |plan| ==> MultiConfigStep(plan[i])
  }

  lemma {:induction false} EffectsAreMultiConfig(disk: Disk, plan: seq<Step>, k: nat, oracle: nat -> Outcome)
    requires MultiConfigPlan(plan)
    ensures MultiConfigActions(Effects(disk, plan, k, oracle))
    decreases |plan|
  {
    if plan != [] {
      assert MultiConfigStep(plan[0]);
      var (a, o) := Perform(disk, plan[0], oracle(k));
      if o == Success {
        EffectsAreMultiConfig(After(disk, a), plan[1..], k + 1, oracle);
      }
    }
  }

  lemma {:induction false} DisablesAreMultiConfig(v: Version, h: Handler, p: Package, settings: seq<Setting>)
    requires h.multiConfig
    ensures MultiConfigPlan(DisableOld(v, h, p, settings)) && MultiConfigPlan(DisableAll(v, h, settings))
    decreases |settings|
  {
    if settings != [] {
      DisablesAreMultiConfig(v, h, p, settings[1..]);
    }
  }

  lemma {:induction false} StopIsMultiConfig(disk: Disk, v: Version, h: Handler, p: Package)
    requires h.multiConfig
    ensures MultiConfigPlan(DisableOldPlan(disk, v, h, p)) && MultiConfigPlan(UninstallPlan(disk, v, h))
  {
    DisablesAreMultiConfig(v, h, p, EnabledSettings(disk, v, h, h.settings));
  }

  lemma {:induction false} SetupIsMultiConfig(v: Version)
    ensures MultiConfigPlan(SetupPlan(v))
  {
  }

  lemma {:induction false} UpdateIsMultiConfig(disk: Disk, prior: Version, v: Version, h: Handler, p: Package)
    requires h.multiConfig
    ensures MultiConfigPlan(UpdatePlan(disk, prior, v, h, p))
  {
    StopIsMultiConfig(disk, prior, h, p);
  }

  lemma {:induction false} ConcatIsMultiConfig(a: seq<Step>, b: seq<Step>)
    requires MultiConfigPlan(a) && MultiConfigPlan(b)
    ensures MultiConfigPlan(a + b)
  {
  }

  lemma {:induction false} EnableIsMultiConfig(disk: Disk, installed: Option<Version>, req: Request)
    requires req.h.multiConfig
    ensures MultiConfigPlan(EnablePlan(disk, installed, req.version, req.h, req.extension, req.p))
  {
    var v, h, p := req.version, req.h, req.p;
    if !IsInstalled(StateOf(disk, v)) {
      SetupIsMultiConfig(v);
      if installed.Some? {
        UpdateIsMultiConfig(disk, installed.value, v, h, p);
        ConcatIsMultiConfig(SetupPlan(v), UpdatePlan(disk, installed.value, v, h, p));
      } else {
        ConcatIsMultiConfig(SetupPlan(v), [Command(Put(v, Installed), Nothing, false)]);
      }
    }
    ConcatIsMultiConfig(InstallPlan(disk, installed, v, h, p), ExtensionPlan(v, h, req.extension));
  }

  lemma {:induction false} RequestIsMultiConfig(disk: Disk, installed: Option<Version>, req: Request)
    requires req.h.multiConfig
    ensures MultiConfigPlan(RequestPlan(disk, installed, req))
  {
    var u := if installed.Some? then installed.value else req.version;
    match req.operation
    case Enable => EnableIsMultiConfig(disk, installed, req);
    case Disable =>
    case Uninstall => StopIsMultiConfig(disk, u, req.h, req.p);
  }

  ghost predicate MultiConfigJobs(jobs: seq<Job>) {
    forall i :: 0 <= i < |jobs| ==> jobs[i].req.h.multiConfig
  }

  lemma {:induction false} RunIsMultiConfig(disk: Disk, jobs: seq<Job>)
    requires MultiConfigJobs(jobs)
    ensures MultiConfigActions(RunEffects(disk, jobs))
    decreases |jobs|
  {
    if jobs != [] {
      assert jobs[0].req.h.multiConfig;
      RequestIsMultiConfig(disk, InstalledVersion(disk), jobs[0].req);
      EffectsAreMultiConfig(disk, JobPlan(disk, jobs[0]), 0, jobs[0].oracle);
      RunIsMultiConfig(AfterJob(disk, jobs[0]), jobs[1..]);
    }
  }

  /** In every run of enables, disables, updates and uninstalls, with commands and removals failing anywhere, every
      installed version is in step at every moment exactly when every effect keeps step on the disk it meets. */
  lemma {:induction false} MomentsAreInStepExactlyWhen(disk: Disk, jobs: seq<Job>)
    requires AllInStep(disk) && MultiConfigJobs(jobs)
    ensures ApplyAll(disk, RunJobs(disk, jobs)) == AfterAll(disk, RunEffects(disk, jobs))
    ensures InStepThroughEffects(disk, RunEffects(disk, jobs)) <==> EachKeeps(disk, RunEffects(disk, jobs))
  {
    RunIsItsEffects(disk, jobs);
    RunIsMultiConfig(disk, jobs);
    EffectsKeepExactlyWhen(disk, RunEffects(disk, jobs));
  }
}
