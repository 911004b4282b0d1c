/** What every run of handler requests keeps, whichever commands fail. */
module HandlerTheorems {
  import opened Common
  import opened HandlerProtocol

  // ----- At most one version is installed -----

  ghost predicate AtMostOne(disk: Disk) {
    forall v, w :: v in disk && w in disk && IsInstalled(disk[v].state) && IsInstalled(disk[w].state) ==> v == w
  }

  /** At most one version is installed before, between and after the writes. */
  ghost predicate SafeThroughout(disk: Disk, ws: seq<Write>)
    decreases |ws|
  {
    AtMostOne(disk) && (ws == [] || SafeThroughout(Apply(disk, ws[0]), ws[1..]))
  }

  /** No version other than u is installed. */
  ghost predicate Only(disk: Disk, u: Version) {
    forall v :: v in disk && IsInstalled(disk[v].state) ==> v == u
  }

  ghost predicate OnlyThroughout(disk: Disk, ws: seq<Write>, u: Version)
    decreases |ws|
  {
    Only(disk, u) && (ws == [] || OnlyThroughout(Apply(disk, ws[0]), ws[1..], u))
  }

  predicate HarmlessAction(a: Action, u: Version) {
    match a
    case Nothing => true
    case Put(v, state) => v == u || !IsInstalled(state)
    case Remove(_) => true
    case MarkEnabled(v, _, _) => v == u
    case MarkDisabled(v, _, _) => v == u
  }

  predicate HarmlessStep(step: Step, u: Version) {
    match step
    case Always(a) => HarmlessAction(a, u)
    case Command(a, b, _) => HarmlessAction(a, u) && HarmlessAction(b, u)
    case DisableUnlessDisabled(v, _, _) => v == u
    case Raise => true
  }

  ghost predicate Harmless(plan: seq<Step>, u: Version) {
    forall i :: 0 <= i < |plan| ==> HarmlessStep(plan[i], u)
  }

  lemma {:induction false} ApplyAllConcat(disk: Disk, ws: seq<Write>, more: seq<Write>)
    ensures ApplyAll(disk, ws + more) == ApplyAll(ApplyAll(disk, ws), more)
    decreases |ws|
  {
    if ws == [] {
      assert ws + more == more;
    } else {
      assert (ws + more)[0] == ws[0] && (ws + more)[1..] == ws[1..] + more;
      ApplyAllConcat(Apply(disk, ws[0]), ws[1..], more);
    }
  }

  lemma {:induction false} ApplyOne(disk: Disk, w: Write)
    ensures ApplyAll(disk, [w]) == Apply(disk, w)
  {
    assert ApplyAll(Apply(disk, w), []) == Apply(disk, w);
  }

  lemma {:induction false} OnlyThroughoutConcat(disk: Disk, ws: seq<Write>, more: seq<Write>, u: Version)
    requires OnlyThroughout(disk, ws, u) && OnlyThroughout(ApplyAll(disk, ws), more, u)
    ensures OnlyThroughout(disk, ws + more, u)
    decreases |ws|
  {
    if ws == [] {
      assert ws + more == more;
    } else {
      assert (ws + more)[0] == ws[0] && (ws + more)[1..] == ws[1..] + more;
      OnlyThroughoutConcat(Apply(disk, ws[0]), ws[1..], more, u);
    }
  }

  lemma {:induction false} SafeThroughoutConcat(disk: Disk, ws: seq<Write>, more: seq<Write>)
    ensures SafeThroughout(disk, ws + more) <==> SafeThroughout(disk, ws) && SafeThroughout(ApplyAll(disk, ws), more)
    decreases |ws|
  {
    if ws == [] {
      assert ws + more == more;
    } else {
      assert (ws + more)[0] == ws[0] && (ws + more)[1..] == ws[1..] + more;
      SafeThroughoutConcat(Apply(disk, ws[0]), ws[1..], more);
    }
  }

  lemma {:induction false} OnlyIsSafe(disk: Disk, ws: seq<Write>, u: Version)
    requires OnlyThroughout(disk, ws, u)
    ensures SafeThroughout(disk, ws) && Only(ApplyAll(disk, ws), u)
    decreases |ws|
  {
    if ws != [] {
      OnlyIsSafe(Apply(disk, ws[0]), ws[1..], u);
    }
  }

  lemma {:induction false} HarmlessWrites(disk: Disk, a: Action, u: Version)
    requires Only(disk, u) && HarmlessAction(a, u)
    ensures OnlyThroughout(disk, Writes(disk, a), u)
  {
    var ws := Writes(disk, a);
    assert |ws| <= 2;
    if ws != [] {
      assert Only(Apply(disk, ws[0]), u);
      if |ws| == 2 {
        assert Only(Apply(Apply(disk, ws[0]), ws[1]), u);
        assert ws[1..][0] == ws[1] && ws[1..][1..] == [];
      }
    }
  }

  lemma {:induction false} HarmlessExecution(disk: Disk, plan: seq<Step>, k: nat, oracle: nat -> Outcome, u: Version)
    requires Only(disk, u) && Harmless(plan, u)
    ensures OnlyThroughout(disk, Execute(disk, plan, k, oracle).0, u)
    decreases |plan|
  {
    if plan != [] {
      var (a, o) := Perform(disk, plan[0], oracle(k));
      assert HarmlessStep(plan[0], u);
      HarmlessWrites(disk, a, u);
      var ws := Writes(disk, a);
      if o == Success {
        OnlyIsSafe(disk, ws, u);
        HarmlessExecution(ApplyAll(disk, ws), plan[1..], k + 1, oracle, u);
        OnlyThroughoutConcat(disk, ws, Execute(ApplyAll(disk, ws), plan[1..], k + 1, oracle).0, u);
      }
    }
  }

  /** One result after another; the second counts only if the first is a success. */
  function Then(r: (seq<Write>, Outcome), next: (seq<Write>, Outcome)): (seq<Write>, Outcome) {
    if r.1 != Success then r else (r.0 + next.0, next.1)
  }

  lemma {:induction false} Shift(first: seq<Write>, r: (seq<Write>, Outcome), next: (seq<Write>, Outcome))
    ensures Then((first + r.0, r.1), next) == (first + Then(r, next).0, Then(r, next).1)
  {
    assert first + (r.0 + next.0) == (first + r.0) + next.0;
  }

  /** Going on with `more` after a plan that gave r. */
  function Sequel(disk: Disk, r: (seq<Write>, Outcome), more: seq<Step>, k: nat,
                  oracle: nat -> Outcome): (seq<Write>, Outcome)
  {
    Then(r, Execute(ApplyAll(disk, r.0), more, k, oracle))
  }

  lemma {:induction false} SequelAfter(disk: Disk, first: seq<Write>, r: (seq<Write>, Outcome), more: seq<Step>, k: nat,
                                       oracle: nat -> Outcome)
    ensures var later := Sequel(ApplyAll(disk, first), r, more, k, oracle);
            Sequel(disk, (first + r.0, r.1), more, k, oracle) == (first + later.0, later.1)
  {
    ApplyAllConcat(disk, first, r.0);
    Shift(first, r, Execute(ApplyAll(ApplyAll(disk, first), r.0), more, k, oracle));
  }

  lemma {:induction false} ExecuteStep(disk: Disk, step: Step, plan: seq<Step>, k: nat, oracle: nat -> Outcome)
    ensures var (a, o) := Perform(disk, step, oracle(k));
            Execute(disk, [step] + plan, k, oracle) == Sequel(disk, (Writes(disk, a), o), plan, k + 1, oracle)
  {
    assert ([step] + plan)[1..] == plan;
  }

  /** The first step of two plans in a row, given what the rest does: a, then b, then c. */
  lemma {:induction false} ConcatResults(disk: Disk, a: (seq<Write>, Outcome), b: (seq<Write>, Outcome),
                                         more: seq<Step>, k: nat, oracle: nat -> Outcome)
    ensures Then(a, Sequel(ApplyAll(disk, a.0), b, more, k, oracle)) == Sequel(disk, Then(a, b), more, k, oracle)
  {
    if a.1 == Success {
      SequelAfter(disk, a.0, b, more, k, oracle);
    }
  }

  lemma {:induction false} AfterNothing(disk: Disk, more: seq<Step>, k: nat, oracle: nat -> Outcome)
    ensures Sequel(disk, ([], Success), more, k, oracle) == Execute(disk, more, k, oracle)
  {
    var next := Execute(disk, more, k, oracle);
    assert [] + next.0 == next.0;
  }

  /** What the first step of a plan does. */
  function FirstResult(disk: Disk, plan: seq<Step>, k: nat, oracle: nat -> Outcome): (seq<Write>, Outcome)
    requires plan != []
  {
    var (a, o) := Perform(disk, plan[0], oracle(k));
    (Writes(disk, a), o)
  }

  lemma {:induction false} ExecuteFirst(disk: Disk, plan: seq<Step>, k: nat, oracle: nat -> Outcome)
    requires plan != []
    ensures var a := FirstResult(disk, plan, k, oracle);
            Execute(disk, plan, k, oracle) == Then(a, Execute(ApplyAll(disk, a.0), plan[1..], k + 1, oracle))
  {
  }

  lemma {:induction false} SplitFirst(plan: seq<Step>, more: seq<Step>)
    requires plan != []
    ensures (plan + more)[0] == plan[0] && (plan + more)[1..] == plan[1..] + more
  {
  }

  /** Executing two plans in a row. */
  lemma {:induction false} ExecuteConcat(disk: Disk, plan: seq<Step>, more: seq<Step>, k: nat, oracle: nat -> Outcome)
    ensures Execute(disk, plan + more, k, oracle)
         == Sequel(disk, Execute(disk, plan, k, oracle), more, k + |plan|, oracle)
    decreases |plan|
  {
    if plan == [] {
      AfterNothing(disk, more, k, oracle);
      assert plan + more == more;
    } else {
      var rest := plan[1..];
      var a := FirstResult(disk, plan, k, oracle);
      var next := ApplyAll(disk, a.0);
      SplitFirst(plan, more);
      ExecuteFirst(disk, plan + more, k, oracle);
      ExecuteFirst(disk, plan, k, oracle);
      ExecuteConcat(next, rest, more, k + 1, oracle);
      ConcatResults(disk, a, Execute(next, rest, k + 1, oracle), more, k + |plan|, oracle);
    }
  }

  // ----- Updates -----

  lemma {:induction false} DisableOldIsHarmless(prior: Version, h: Handler, p: Package, extensions: seq<Setting>)
    ensures Harmless(DisableOld(prior, h, p, extensions), prior)
  {
    if extensions != [] {
      DisableOldIsHarmless(prior, h, p, extensions[1..]);
    }
  }

  lemma {:induction false} DisableAllIsHarmless(v: Version, h: Handler, extensions: seq<Setting>)
    ensures Harmless(DisableAll(v, h, extensions), v)
  {
    if extensions != [] {
      DisableAllIsHarmless(v, h, extensions[1..]);
    }
  }

  lemma {:induction false} LeaveOldIsHarmless(disk: Disk, prior: Version, v: Version, h: Handler, p: Package)
    ensures Harmless(LeaveOldPlan(disk, prior, v, h, p), prior)
  {
    DisableOldIsHarmless(prior, h, p, EnabledSettings(disk, prior, h, h.settings));
  }

  lemma {:induction false} SafeAtTheEnd(disk: Disk, ws: seq<Write>)
    requires SafeThroughout(disk, ws)
    ensures AtMostOne(ApplyAll(disk, ws))
    decreases |ws|
  {
    if ws != [] {
      SafeAtTheEnd(Apply(disk, ws[0]), ws[1..]);
    }
  }

  /** Removing the only installed version and then running steps that concern v alone. */
  lemma {:induction false} RemoveThenEnter(disk: Disk, prior: Version, v: Version, enter: seq<Step>, k: nat,
                                           oracle: nat -> Outcome)
    requires Only(disk, prior) && Harmless(enter, v) && oracle(k) != ExtensionError
    ensures var (ws, o) := Execute(disk, [RemovalStep(prior)] + enter, k, oracle);
            SafeThroughout(disk, ws) && (o == Success ==> Only(ApplyAll(disk, ws), v))
  {
    ExecuteStep(disk, RemovalStep(prior), enter, k, oracle);
    if oracle(k) == Success {
      var gone := disk - {prior};
      assert ApplyAll(disk, [RemoveDirectory(prior)]) == gone && Only(gone, v);
      HarmlessExecution(gone, enter, k + 1, oracle, v);
      var ws := Execute(gone, enter, k + 1, oracle).0;
      OnlyIsSafe(gone, ws, v);
      assert SafeThroughout(disk, [RemoveDirectory(prior)]) by {
        assert SafeThroughout(gone, []);
      }
      SafeThroughoutConcat(disk, [RemoveDirectory(prior)], ws);
      ApplyAllConcat(disk, [RemoveDirectory(prior)], ws);
    }
  }

  /** Steps that concern the prior version alone, its removal, then steps that concern v alone: the new
      version is written as Installed only after the old directory is gone. */
  lemma {:induction false} SwapIsSafe(disk: Disk, leave: seq<Step>, prior: Version, v: Version, enter: seq<Step>,
                                      k: nat, oracle: nat -> Outcome)
    requires Only(disk, prior) && Harmless(leave, prior) && Harmless(enter, v)
    requires oracle(k + |leave|) != ExtensionError
    ensures var (ws, o) := Execute(disk, leave + ([RemovalStep(prior)] + enter), k, oracle);
            SafeThroughout(disk, ws) && (o == Success ==> Only(ApplyAll(disk, ws), v))
  {
    var rest := [RemovalStep(prior)] + enter;
    HarmlessExecution(disk, leave, k, oracle, prior);
    var (ws, o) := Execute(disk, leave, k, oracle);
    OnlyIsSafe(disk, ws, prior);
    ExecuteConcat(disk, leave, rest, k, oracle);
    if o == Success {
      RemoveThenEnter(ApplyAll(disk, ws), prior, v, enter, k + |leave|, oracle);
      var more := Execute(ApplyAll(disk, ws), rest, k + |leave|, oracle).0;
      SafeThroughoutConcat(disk, ws, more);
      ApplyAllConcat(disk, ws, more);
    }
  }

  // ----- Requests and runs of requests -----

  /** Every removal of a handler directory the plan gets to works or aborts the request. */
  ghost predicate RemovalsWork(plan: seq<Step>, k: nat, oracle: nat -> Outcome) {
    forall i, v :: 0 <= i < |plan| && plan[i] == RemovalStep(v) ==> oracle(k + i) != ExtensionError
  }

  lemma {:induction false} HarmlessConcat(plan: seq<Step>, more: seq<Step>, u: Version)
    requires Harmless(plan, u) && Harmless(more, u)
    ensures Harmless(plan + more, u)
  {
  }

  /** The steps of an update request before and after the removal of the prior version. */
  function BeforeRemoval(disk: Disk, prior: Version, req: Request): seq<Step> {
    [CHECK] + SetupPlan(req.version) + LeaveOldPlan(disk, prior, req.version, req.h, req.p)
  }

  function AfterRemoval(req: Request): seq<Step> {
    EnterNewPlan(req.version, req.p) + ExtensionPlan(req.version, req.h, req.extension)
  }

  ghost predicate IsUpdate(disk: Disk, installed: Option<Version>, req: Request) {
    req.operation == Enable && installed.Some? && !IsInstalled(StateOf(disk, req.version))
  }

  lemma {:induction false} UpdateRequestPlan(disk: Disk, prior: Version, req: Request)
    requires IsUpdate(disk, Some(prior), req)
    ensures RequestPlan(disk, Some(prior), req) ==
              BeforeRemoval(disk, prior, req) + ([RemovalStep(prior)] + AfterRemoval(req))
    ensures Harmless(BeforeRemoval(disk, prior, req), prior) && Harmless(AfterRemoval(req), req.version)
  {
    var v, h, p, x := req.version, req.h, req.p, ExtensionPlan(req.version, req.h, req.extension);
    var leave, enter := LeaveOldPlan(disk, prior, v, h, p), EnterNewPlan(v, p);
    assert [CHECK] + (SetupPlan(v) + ((leave + [RemovalStep(prior)] + enter)) + x)
        == [CHECK] + SetupPlan(v) + leave + ([RemovalStep(prior)] + (enter + x));
    LeaveOldIsHarmless(disk, prior, v, h, p);
    HarmlessConcat([CHECK] + SetupPlan(v), leave, prior);
    HarmlessConcat(enter, x, v);
  }

  lemma {:induction false} EnableIsHarmless(disk: Disk, installed: Option<Version>, v: Version, h: Handler,
                                            extension: Option<Setting>, p: Package)
    requires IsInstalled(StateOf(disk, v)) || installed.None?
    ensures Harmless(EnablePlan(disk, installed, v, h, extension, p), v)
  {
    HarmlessConcat(SetupPlan(v), [Command(Put(v, Installed), Nothing, false)], v);
    HarmlessConcat(InstallPlan(disk, installed, v, h, p), ExtensionPlan(v, h, extension), v);
  }

  lemma {:induction false} StopIsHarmless(disk: Disk, v: Version, h: Handler)
    ensures Harmless(UninstallPlan(disk, v, h), v)
  {
    DisableAllIsHarmless(v, h, EnabledSettings(disk, v, h, h.settings));
    HarmlessConcat(StopPlan(disk, v, h), [RemovalStep(v)], v);
  }

  /** A request that does not replace one version by another concerns a single version. */
  lemma {:induction false} OtherRequestsAreHarmless(disk: Disk, installed: Option<Version>, req: Request)
    returns (u: Version)
    requires AtMostOne(disk) && IsInstalledVersion(disk, installed) && !IsUpdate(disk, installed, req)
    ensures Only(disk, u) && Harmless(RequestPlan(disk, installed, req), u)
  {
    u := if installed.Some? then installed.value else req.version;
    match req.operation
    case Enable =>
      EnableIsHarmless(disk, installed, req.version, req.h, req.extension, req.p);
      HarmlessConcat([CHECK], EnablePlan(disk, installed, req.version, req.h, req.extension, req.p), u);
    case Disable =>
      HarmlessConcat([CHECK], DisablePlan(disk, u, req.h, req.extension), u);
    case Uninstall =>
      StopIsHarmless(disk, u, req.h);
      HarmlessConcat([CHECK], UninstallPlan(disk, u, req.h), u);
  }

  lemma {:induction false} UpdateRequestIsSafe(disk: Disk, prior: Version, req: Request, k: nat, oracle: nat -> Outcome)
    requires Only(disk, prior) && IsUpdate(disk, Some(prior), req)
    requires RemovalsWork(RequestPlan(disk, Some(prior), req), k, oracle)
    ensures SafeThroughout(disk, Execute(disk, RequestPlan(disk, Some(prior), req), k, oracle).0)
  {
    var leave, enter := BeforeRemoval(disk, prior, req), AfterRemoval(req);
    UpdateRequestPlan(disk, prior, req);
    assert (leave + ([RemovalStep(prior)] + enter))[|leave|] == RemovalStep(prior);
    SwapIsSafe(disk, leave, prior, req.version, enter, k, oracle);
  }

  lemma {:induction false} HarmlessRequestIsSafe(disk: Disk, plan: seq<Step>, u: Version, k: nat,
                                                 oracle: nat -> Outcome)
    requires Only(disk, u) && Harmless(plan, u)
    ensures SafeThroughout(disk, Execute(disk, plan, k, oracle).0)
  {
    HarmlessExecution(disk, plan, k, oracle, u);
    OnlyIsSafe(disk, Execute(disk, plan, k, oracle).0, u);
  }

  lemma {:induction false} RequestIsSafe(disk: Disk, installed: Option<Version>, req: Request, k: nat,
                                         oracle: nat -> Outcome)
    requires AtMostOne(disk) && IsInstalledVersion(disk, installed)
    requires RemovalsWork(RequestPlan(disk, installed, req), k, oracle)
    ensures SafeThroughout(disk, Execute(disk, RequestPlan(disk, installed, req), k, oracle).0)
  {
    if IsUpdate(disk, installed, req) {
      UpdateRequestIsSafe(disk, installed.value, req, k, oracle);
    } else {
      var u := OtherRequestsAreHarmless(disk, installed, req);
      HarmlessRequestIsSafe(disk, RequestPlan(disk, installed, req), u, k, oracle);
    }
  }

  ghost predicate RunRemovalsWork(disk: Disk, jobs: seq<Job>)
    decreases |jobs|
  {
    jobs == [] ||
    (RemovalsWork(JobPlan(disk, jobs[0]), 0, jobs[0].oracle)
     && RunRemovalsWork(ApplyAll(disk, Execute(disk, JobPlan(disk, jobs[0]), 0, jobs[0].oracle).0), jobs[1..]))
  }

  /** In every run of enable, disable and uninstall requests, with any commands failing, at most one
      version of a handler is installed at any moment, provided directory removals work. */
  lemma {:induction false} RunIsSafe(disk: Disk, jobs: seq<Job>)
    requires AtMostOne(disk) && RunRemovalsWork(disk, jobs)
    ensures SafeThroughout(disk, RunJobs(disk, jobs))
    decreases |jobs|
  {
    if jobs != [] {
      RequestIsSafe(disk, InstalledVersion(disk), jobs[0].req, 0, jobs[0].oracle);
      var ws := Execute(disk, JobPlan(disk, jobs[0]), 0, jobs[0].oracle).0;
      SafeAtTheEnd(disk, ws);
      RunIsSafe(ApplyAll(disk, ws), jobs[1..]);
      SafeThroughoutConcat(disk, ws, RunJobs(ApplyAll(disk, ws), jobs[1..]));
    }
  }

  // ----- When the removal of the old directory fails -----

  /** If the run goes on after this step, the prior version is still installed. */
  predicate KeepsInstalled(a: Action, prior: Version) {
    match a
    case Nothing => true
    case Put(v, _) => v != prior
    case Remove(v) => v != prior
    case MarkEnabled(_, _, _) => true
    case MarkDisabled(_, _, _) => true
  }

  predicate StepKeepsInstalled(step: Step, prior: Version) {
    match step
    case Always(a) => KeepsInstalled(a, prior)
    case Command(a, b, tolerated) => KeepsInstalled(a, prior) && (tolerated ==> KeepsInstalled(b, prior))
    case DisableUnlessDisabled(_, _, _) => true
    case Raise => true
  }

  ghost predicate AllKeepInstalled(plan: seq<Step>, prior: Version) {
    forall i :: 0 <= i < |plan| ==> StepKeepsInstalled(plan[i], prior)
  }

  lemma {:induction false} ActionKeepsInstalled(disk: Disk, a: Action, prior: Version)
    requires IsInstalled(StateOf(disk, prior)) && KeepsInstalled(a, prior)
    ensures IsInstalled(StateOf(ApplyAll(disk, Writes(disk, a)), prior))
  {
    var ws := Writes(disk, a);
    assert |ws| <= 2;
    if ws != [] {
      assert IsInstalled(StateOf(Apply(disk, ws[0]), prior));
      if |ws| == 2 {
        assert ws[1..][0] == ws[1] && ws[1..][1..] == [];
        assert ApplyAll(Apply(disk, ws[0]), ws[1..]) == Apply(Apply(disk, ws[0]), ws[1]);
      }
    }
  }

  lemma {:induction false} PlanKeepsInstalled(disk: Disk, plan: seq<Step>, k: nat, oracle: nat -> Outcome,
                                              prior: Version)
    requires IsInstalled(StateOf(disk, prior))
    requires AllKeepInstalled(plan, prior)
    requires Execute(disk, plan, k, oracle).1 == Success
    ensures IsInstalled(StateOf(ApplyAll(disk, Execute(disk, plan, k, oracle).0), prior))
    decreases |plan|
  {
    if plan != [] {
      assert StepKeepsInstalled(plan[0], prior);
      var (a, o) := Perform(disk, plan[0], oracle(k));
      var ws := Writes(disk, a);
      ActionKeepsInstalled(disk, a, prior);
      PlanKeepsInstalled(ApplyAll(disk, ws), plan[1..], k + 1, oracle, prior);
      ApplyAllConcat(disk, ws, Execute(ApplyAll(disk, ws), plan[1..], k + 1, oracle).0);
    }
  }

  lemma {:induction false} DisableOldKeepsInstalled(prior: Version, h: Handler, p: Package, extensions: seq<Setting>)
    ensures AllKeepInstalled(DisableOld(prior, h, p, extensions), prior)
  {
    if extensions != [] {
      DisableOldKeepsInstalled(prior, h, p, extensions[1..]);
    }
  }

  /** With the prior version still there, entering the new one is safe exactly when it stops short
      of its first Installed write. */
  lemma {:induction false} EnterBesidePrior(disk: Disk, prior: Version, req: Request, k: nat, oracle: nat -> Outcome)
    requires Only(disk, prior) && IsInstalled(StateOf(disk, prior)) && prior != req.version
    ensures SafeThroughout(disk, Execute(disk, AfterRemoval(req), k, oracle).0) <==>
              !EntersNew(req, k, oracle)
  {
    var v, p := req.version, req.p;
    var x := ExtensionPlan(v, req.h, req.extension);
    var install := if p.updateWithInstall then [Command(Put(v, Installed), Nothing, false)] else [];
    assert AfterRemoval(req) == [CHECK] + (install + ([Always(Put(v, Installed))] + x));
    ExecuteStep(disk, CHECK, install + ([Always(Put(v, Installed))] + x), k, oracle);
    assert ApplyAll(disk, []) == disk;
    if oracle(k) == Success {
      var rest := [Always(Put(v, Installed))] + x;
      if p.updateWithInstall {
        ExecuteStep(disk, install[0], rest, k + 1, oracle);
      } else {
        assert install + rest == rest;
        ExecuteStep(disk, Always(Put(v, Installed)), x, k + 1, oracle);
      }
      var ws := Execute(disk, install + rest, k + 1, oracle).0;
      if !p.updateWithInstall || oracle(k + 1) == Success {
        assert ws[0] == SetState(v, Installed);
        var both := Apply(disk, ws[0]);
        assert IsInstalled(both[v].state) && IsInstalled(both[prior].state);
      }
    }
  }

  lemma {:induction false} BeforeRemovalKeepsInstalled(disk: Disk, prior: Version, req: Request)
    requires prior != req.version
    ensures AllKeepInstalled(BeforeRemoval(disk, prior, req), prior)
  {
    DisableOldKeepsInstalled(prior, req.h, req.p, EnabledSettings(disk, prior, req.h, req.h.settings));
  }

  /** The new version is reached and gets as far as its Installed state. */
  ghost predicate EntersNew(req: Request, k: nat, oracle: nat -> Outcome) {
    oracle(k) == Success && (req.p.updateWithInstall ==> oracle(k + 1) == Success)
  }

  lemma {:induction false} SkipFailedRemoval(disk: Disk, prior: Version, enter: seq<Step>, k: nat,
                                             oracle: nat -> Outcome)
    requires oracle(k) == ExtensionError
    ensures Execute(disk, [RemovalStep(prior)] + enter, k, oracle) == Execute(disk, enter, k + 1, oracle)
  {
    var plan := [RemovalStep(prior)] + enter;
    assert plan[1..] == enter;
    QuietStep(disk, plan, k, oracle);
  }

  /** Going on after a removal that failed. */
  lemma {:induction false} FailedRemoval(disk: Disk, leave: seq<Step>, prior: Version, req: Request,
                                         oracle: nat -> Outcome)
    requires Only(disk, prior) && IsInstalled(StateOf(disk, prior)) && prior != req.version
    requires Harmless(leave, prior) && AllKeepInstalled(leave, prior) && oracle(|leave|) == ExtensionError
    ensures SafeThroughout(disk, Execute(disk, leave + ([RemovalStep(prior)] + AfterRemoval(req)), 0, oracle).0) <==>
              !(Execute(disk, leave, 0, oracle).1 == Success && EntersNew(req, |leave| + 1, oracle))
  {
    var enter := AfterRemoval(req);
    HarmlessExecution(disk, leave, 0, oracle, prior);
    var (ws, o) := Execute(disk, leave, 0, oracle);
    OnlyIsSafe(disk, ws, prior);
    ExecuteConcat(disk, leave, [RemovalStep(prior)] + enter, 0, oracle);
    if o == Success {
      var left := ApplyAll(disk, ws);
      PlanKeepsInstalled(disk, leave, 0, oracle, prior);
      SkipFailedRemoval(left, prior, enter, |leave|, oracle);
      EnterBesidePrior(left, prior, req, |leave| + 1, oracle);
      SafeThroughoutConcat(disk, ws, Execute(left, enter, |leave| + 1, oracle).0);
    }
  }

  /** Exactly when an update is unsafe: everything up to the removal of the old directory goes
      through, the removal fails (which is only logged), and the new version gets as far as its
      Installed state. */
  lemma {:induction false} UpdateIsSafeExactlyWhen(disk: Disk, prior: Version, req: Request, oracle: nat -> Outcome)
    requires AtMostOne(disk) && IsInstalledVersion(disk, Some(prior)) && IsUpdate(disk, Some(prior), req)
    ensures var leave := BeforeRemoval(disk, prior, req);
            SafeThroughout(disk, Execute(disk, RequestPlan(disk, Some(prior), req), 0, oracle).0) <==>
              !(Execute(disk, leave, 0, oracle).1 == Success && oracle(|leave|) == ExtensionError
                && EntersNew(req, |leave| + 1, oracle))
  {
    var leave := BeforeRemoval(disk, prior, req);
    UpdateRequestPlan(disk, prior, req);
    if oracle(|leave|) != ExtensionError {
      SwapIsSafe(disk, leave, prior, req.version, AfterRemoval(req), 0, oracle);
    } else {
      BeforeRemovalKeepsInstalled(disk, prior, req);
      FailedRemoval(disk, leave, prior, req, oracle);
    }
  }

  /** The request replaces a version whose directory then cannot be removed, and gets as far as installing the new
      one. */
  ghost predicate LeavesTwo(disk: Disk, installed: Option<Version>, req: Request, oracle: nat -> Outcome) {
    && IsUpdate(disk, installed, req)
    && var leave := BeforeRemoval(disk, installed.value, req);
       && Execute(disk, leave, 0, oracle).1 == Success && oracle(|leave|) == ExtensionError
       && EntersNew(req, |leave| + 1, oracle)
  }

  lemma {:induction false} RequestIsSafeExactlyWhen(disk: Disk, installed: Option<Version>, req: Request,
                                                    oracle: nat -> Outcome)
    requires AtMostOne(disk) && IsInstalledVersion(disk, installed)
    ensures SafeThroughout(disk, Execute(disk, RequestPlan(disk, installed, req), 0, oracle).0)
       <==> !LeavesTwo(disk, installed, req, oracle)
  {
    if IsUpdate(disk, installed, req) {
      UpdateIsSafeExactlyWhen(disk, installed.value, req, oracle);
    } else {
      var u := OtherRequestsAreHarmless(disk, installed, req);
      HarmlessRequestIsSafe(disk, RequestPlan(disk, installed, req), u, 0, oracle);
    }
  }

  ghost predicate NoneLeavesTwo(disk: Disk, jobs: seq<Job>)
    decreases |jobs|
  {
    jobs == [] ||
    (!LeavesTwo(disk, InstalledVersion(disk), jobs[0].req, jobs[0].oracle)
     && NoneLeavesTwo(ApplyAll(disk, Execute(disk, JobPlan(disk, jobs[0]), 0, jobs[0].oracle).0), jobs[1..]))
  }

  /** In every run of requests, with any commands and removals failing, at most one version is installed at every moment
      exactly when no update of the run leaves two. */
  lemma {:induction false} RunIsSafeExactlyWhen(disk: Disk, jobs: seq<Job>)
    requires AtMostOne(disk)
    ensures SafeThroughout(disk, RunJobs(disk, jobs)) <==> NoneLeavesTwo(disk, jobs)
    decreases |jobs|
  {
    if jobs != [] {
      RequestIsSafeExactlyWhen(disk, InstalledVersion(disk), jobs[0].req, jobs[0].oracle);
      var ws := Execute(disk, JobPlan(disk, jobs[0]), 0, jobs[0].oracle).0;
      SafeThroughoutConcat(disk, ws, RunJobs(ApplyAll(disk, ws), jobs[1..]));
      if SafeThroughout(disk, ws) {
        SafeAtTheEnd(disk, ws);
        RunIsSafeExactlyWhen(ApplyAll(disk, ws), jobs[1..]);
      }
    }
  }

  // ----- Steps without effect -----

  /** The first n steps go through without touching the disk. */
  ghost predicate Quiet(disk: Disk, plan: seq<Step>, n: nat, k: nat, oracle: nat -> Outcome)
    requires n <= |plan|
  {
    forall i :: 0 <= i < n ==> Perform(disk, plan[i], oracle(k + i)) == (Nothing, Success)
  }

  lemma {:induction false} QuietStep(disk: Disk, plan: seq<Step>, k: nat, oracle: nat -> Outcome)
    requires plan != [] && Perform(disk, plan[0], oracle(k)) == (Nothing, Success)
    ensures Execute(disk, plan, k, oracle) == Execute(disk, plan[1..], k + 1, oracle)
  {
    assert plan == [plan[0]] + plan[1..] && ApplyAll(disk, []) == disk;
    ExecuteStep(disk, plan[0], plan[1..], k, oracle);
    var r := Execute(disk, plan[1..], k + 1, oracle);
    assert [] + r.0 == r.0;
  }

  lemma {:induction false} SkipQuietSteps(disk: Disk, plan: seq<Step>, n: nat, k: nat, oracle: nat -> Outcome)
    requires n <= |plan| && Quiet(disk, plan, n, k, oracle)
    ensures Execute(disk, plan, k, oracle) == Execute(disk, plan[n..], k + n, oracle)
    decreases n
  {
    if n == 0 {
      assert plan[0..] == plan;
    } else {
      var rest := plan[1..];
      assert plan[0] == plan[0 + 0];
      QuietStep(disk, plan, k, oracle);
      forall i | 0 <= i < n - 1
        ensures Perform(disk, rest[i], oracle(k + 1 + i)) == (Nothing, Success)
      {
        assert rest[i] == plan[i + 1];
      }
      SkipQuietSteps(disk, rest, n - 1, k + 1, oracle);
      assert rest[n - 1..] == plan[n..];
    }
  }
}
