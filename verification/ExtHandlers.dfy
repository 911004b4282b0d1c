/** ExtHandlersHandler and ExtHandlerInstance as the source writes them: state files rewritten
    by nested commands with their own error handling, proved to execute the plans of
    HandlerProtocol step for step. */
module ExtHandlers {
  import opened Common
  import opened HandlerProtocol
  import opened HandlerTheorems

  /** The disk, every primitive write so far, and the number of steps taken. */
  datatype Moment = Moment(disk: Disk, log: seq<Write>, clock: nat)

  /** From m to m', exactly this plan was executed, with result r. */
  ghost predicate Ran(plan: seq<Step>, m: Moment, oracle: nat -> Outcome, m': Moment, r: Outcome) {
    var done := Execute(m.disk, plan, m.clock, oracle);
    && m'.log == m.log + done.0 && m'.disk == ApplyAll(m.disk, done.0) && r == done.1
    && (r == Success ==> m'.clock == m.clock + |plan|)
  }

  lemma {:induction false} RanStep(step: Step, m: Moment, oracle: nat -> Outcome, m': Moment, r: Outcome)
    requires var (a, o) := Perform(m.disk, step, oracle(m.clock));
             var ws := Writes(m.disk, a);
             m'.disk == ApplyAll(m.disk, ws) && m'.log == m.log + ws && m'.clock == m.clock + 1 && r == o
    ensures Ran([step], m, oracle, m', r)
  {
    var (a, o) := Perform(m.disk, step, oracle(m.clock));
    var ws := Writes(m.disk, a);
    assert [step] == [step] + [];
    ExecuteStep(m.disk, step, [], m.clock, oracle);
    assert ws + [] == ws;
  }

  lemma {:induction false} LogInOrder(log: seq<Write>, first: seq<Write>, second: seq<Write>)
    ensures log + first + second == log + (first + second)
  {
  }

  /** Going on with a second plan after a first one that succeeded. */
  lemma {:induction false} RanThen(plan: seq<Step>, more: seq<Step>, m: Moment, m1: Moment, m2: Moment,
                                   oracle: nat -> Outcome, r: Outcome)
    requires Ran(plan, m, oracle, m1, Success) && Ran(more, m1, oracle, m2, r)
    ensures Ran(plan + more, m, oracle, m2, r)
  {
    var first, second := Execute(m.disk, plan, m.clock, oracle).0, Execute(m1.disk, more, m1.clock, oracle).0;
    assert Execute(m.disk, plan + more, m.clock, oracle) == (first + second, r) by {
      ExecuteConcat(m.disk, plan, more, m.clock, oracle);
    }
    ApplyAllConcat(m.disk, first, second);
    LogInOrder(m.log, first, second);
  }

  /** A plan whose first part failed is done. */
  lemma {:induction false} RanUntil(plan: seq<Step>, more: seq<Step>, m: Moment, m': Moment, oracle: nat -> Outcome,
                                    r: Outcome)
    requires Ran(plan, m, oracle, m', r) && r != Success
    ensures Ran(plan + more, m, oracle, m', r)
  {
    ExecuteConcat(m.disk, plan, more, m.clock, oracle);
  }

  /** A plan stops at the first part that fails. */
  lemma {:induction false} RanAbort(done: seq<Step>, part: seq<Step>, rest: seq<Step>, m: Moment, m1: Moment,
                                    m2: Moment, oracle: nat -> Outcome, r: Outcome)
    requires Ran(done, m, oracle, m1, Success) && Ran(part, m1, oracle, m2, r) && r != Success
    ensures Ran(done + part + rest, m, oracle, m2, r)
  {
    RanThen(done, part, m, m1, m2, oracle, r);
    RanUntil(done + part, rest, m, m2, oracle, r);
  }

  lemma {:induction false} RanNothing(m: Moment, oracle: nat -> Outcome)
    ensures Ran([], m, oracle, m, Success)
  {
    assert m.log + [] == m.log;
  }

  lemma {:induction false} DisableOldConcat(prior: Version, h: Handler, p: Package, a: seq<Setting>, b: seq<Setting>)
    ensures DisableOld(prior, h, p, a + b) == DisableOld(prior, h, p, a) + DisableOld(prior, h, p, b)
  {
    if a == [] {
      assert a + b == b;
    } else {
      assert (a + b)[0] == a[0] && (a + b)[1..] == a[1..] + b;
      DisableOldConcat(prior, h, p, a[1..], b);
    }
  }

  lemma {:induction false} DisableAllConcat(v: Version, h: Handler, a: seq<Setting>, b: seq<Setting>)
    ensures DisableAll(v, h, a + b) == DisableAll(v, h, a) + DisableAll(v, h, b)
  {
    if a == [] {
      assert a + b == b;
    } else {
      assert (a + b)[0] == a[0] && (a + b)[1..] == a[1..] + b;
      DisableAllConcat(v, h, a[1..], b);
    }
  }

  lemma {:induction false} EnabledSettingsFrame(d: Disk, d': Disk, v: Version, h: Handler, settings: seq<Setting>)
    requires ExtensionsOf(d, v) == ExtensionsOf(d', v)
    ensures EnabledSettings(d, v, h, settings) == EnabledSettings(d', v, h, settings)
  {
    if settings != [] {
      EnabledSettingsFrame(d, d', v, h, settings[1..]);
    }
  }

  class ExtHandlersHandler {
    var disk: Disk
    var clock: nat             // step k of the run has outcome oracle(k)
    ghost var log: seq<Write>

    ghost function Now(): Moment
      reads this
    {
      Moment(disk, log, clock)
    }

    constructor (disk: Disk)
      ensures Now() == Moment(disk, [], 0)
    {
      this.disk := disk;
      clock := 0;
      log := [];
    }

    // ----- State files -----

    /** Looks at every directory of the handler, in the order the file system lists them. */
    method GetInstalledVersion() returns (latest: Option<Version>)
      ensures IsInstalledVersion(disk, latest)
    {
      latest := None;
      var paths: set<Version> := disk.Keys;
      while paths != {}
        invariant paths <= disk.Keys
        invariant match latest
                  case None => forall v :: v in disk && v !in paths ==> !IsInstalled(disk[v].state)
                  case Some(u) => u in disk && IsInstalled(disk[u].state)
                                  && forall v :: v in disk && v !in paths && IsInstalled(disk[v].state) ==> v <= u
      {
        var v := AnyOf(paths);
        paths := paths - {v};
        if IsInstalled(disk[v].state) && (latest.None? || latest.value < v) {
          latest := Some(v);
        }
      }
    }

    method WriteFile(w: Write)
      modifies this`disk, this`log
      ensures disk == Apply(old(disk), w) && log == old(log) + [w]
    {
      match w {
        case SetState(v, state) =>
          disk := disk[v := HandlerDir(state, if v in disk then disk[v].extensions else map[])];
        case SetExtension(v, name, enabled) =>
          var dir := if v in disk then disk[v] else HandlerDir(NotInstalled, map[]);
          disk := disk[v := dir.(extensions := dir.extensions[name := enabled])];
        case RemoveExtension(v, name) =>
          if v in disk {
            disk := disk[v := disk[v].(extensions := disk[v].extensions - {name})];
          }
        case RemoveDirectory(v) =>
          disk := disk - {v};
      }
      log := log + [w];
    }

    method AnyEnabled(v: Version, settings: seq<Setting>) returns (any: bool)
      ensures any <==> AnySettingEnabled(disk, v, settings)
    {
      for i := 0 to |settings|
        invariant AnySettingEnabled(disk, v, settings) <==> AnySettingEnabled(disk, v, settings[i..])
      {
        assert settings[i..][1..] == settings[i + 1..];
        if ExtensionEnabled(disk, v, settings[i].name) {
          return true;
        }
      }
      return false;
    }

    /** The settings whose extensions are to be disabled. */
    method GetEnabledSettings(v: Version, h: Handler) returns (enabled: seq<Setting>)
      ensures enabled == EnabledSettings(disk, v, h, h.settings)
    {
      enabled := [];
      for i := 0 to |h.settings|
        invariant EnabledSettings(disk, v, h, h.settings) == enabled + EnabledSettings(disk, v, h, h.settings[i..])
      {
        if !h.multiConfig || ExtensionEnabled(disk, v, h.settings[i].name) {
          enabled := enabled + [h.settings[i]];
        }
      }
    }

    method SaveEnabled(v: Version, h: Handler, extension: Option<Setting>)
      modifies this`disk, this`log
      ensures var ws := Writes(old(disk), MarkEnabled(v, h, extension));
              disk == ApplyAll(old(disk), ws) && log == old(log) + ws
    {
      ghost var d := disk;
      if h.multiConfig && extension.Some? {
        WriteFile(SetExtension(v, extension.value.name, true));
        ApplyAllConcat(d, [SetExtension(v, extension.value.name, true)], [SetState(v, Enabled)]);
        ApplyOne(d, SetExtension(v, extension.value.name, true));
      }
      ApplyOne(disk, SetState(v, Enabled));
      WriteFile(SetState(v, Enabled));
    }

    method SaveDisabled(v: Version, h: Handler, extension: Option<Setting>)
      modifies this`disk, this`log
      ensures var ws := Writes(old(disk), MarkDisabled(v, h, extension));
              disk == ApplyAll(old(disk), ws) && log == old(log) + ws
    {
      ghost var d := disk;
      if h.multiConfig && extension.Some? {
        if extension.value.requested == DropExtension {
          WriteFile(RemoveExtension(v, extension.value.name));
          ApplyOne(d, RemoveExtension(v, extension.value.name));
        } else {
          WriteFile(SetExtension(v, extension.value.name, false));
          ApplyOne(d, SetExtension(v, extension.value.name, false));
        }
      }
      ghost var ws := ExtensionWrites(v, h, extension);
      assert disk == ApplyAll(d, ws) && log == old(log) + ws;
      var any := AnyEnabled(v, h.settings);
      if !h.multiConfig || !any {
        ApplyAllConcat(d, ws, [SetState(v, Installed)]);
        ApplyOne(disk, SetState(v, Installed));
        WriteFile(SetState(v, Installed));
      }
    }

    // ----- Commands -----

    /** Launches an external command. */
    method Launch(oracle: nat -> Outcome) returns (r: Outcome)
      modifies this`clock
      ensures r == oracle(old(clock)) && clock == old(clock) + 1
    {
      r := oracle(clock);
      clock := clock + 1;
    }

    /** Launches a command that saves the state of v on success. */
    method LaunchThenPut(v: Version, state: HandlerState, oracle: nat -> Outcome) returns (r: Outcome)
      modifies this
      ensures Ran([Command(Put(v, state), Nothing, false)], old(Now()), oracle, Now(), r)
    {
      r := Launch(oracle);
      if r == Success {
        ApplyOne(disk, SetState(v, state));
        WriteFile(SetState(v, state));
      }
      RanStep(Command(Put(v, state), Nothing, false), old(Now()), oracle, Now(), r);
    }

    /** A step that may only succeed or abort the request. */
    method Check(oracle: nat -> Outcome) returns (r: Outcome)
      modifies this
      ensures disk == old(disk) && log == old(log)
      ensures Ran([CHECK], old(Now()), oracle, Now(), r)
    {
      r := Launch(oracle);
      RanStep(CHECK, old(Now()), oracle, Now(), r);
    }

    method EnableExtension(v: Version, h: Handler, extension: Option<Setting>, oracle: nat -> Outcome)
      returns (r: Outcome)
      modifies this
      ensures Ran([Command(MarkEnabled(v, h, extension), Nothing, false)], old(Now()), oracle, Now(), r)
    {
      r := Launch(oracle);
      if r == Success {
        SaveEnabled(v, h, extension);
      }
      RanStep(Command(MarkEnabled(v, h, extension), Nothing, false), old(Now()), oracle, Now(), r);
    }

    /** The disable command; the new state is saved only when it succeeds. */
    method DisableExtension(v: Version, h: Handler, extension: Option<Setting>, oracle: nat -> Outcome)
      returns (r: Outcome)
      modifies this
      ensures Ran([Command(MarkDisabled(v, h, extension), Nothing, false)], old(Now()), oracle, Now(), r)
    {
      r := Launch(oracle);
      if r == Success {
        SaveDisabled(v, h, extension);
      }
      RanStep(Command(MarkDisabled(v, h, extension), Nothing, false), old(Now()), oracle, Now(), r);
    }

    method DisableIgnoringError(v: Version, h: Handler, extension: Setting, oracle: nat -> Outcome) returns (r: Outcome)
      modifies this
      ensures Ran([DisableUnlessDisabled(v, h, extension)], old(Now()), oracle, Now(), r)
    {
      r := Success;
      if h.multiConfig && !ExtensionEnabled(disk, v, extension.name) {
        clock := clock + 1;
      } else {
        r := Launch(oracle);
        if r != OtherError {
          SaveDisabled(v, h, Some(extension));
          r := Success;
        }
      }
      RanStep(DisableUnlessDisabled(v, h, extension), old(Now()), oracle, Now(), r);
    }

    /** remove_ext_handler: a failure to remove the directory is only logged. */
    method RemoveHandler(v: Version, oracle: nat -> Outcome) returns (r: Outcome)
      modifies this
      ensures Ran([RemovalStep(v)], old(Now()), oracle, Now(), r)
    {
      r := Launch(oracle);
      if r == Success {
        ApplyOne(disk, RemoveDirectory(v));
        WriteFile(RemoveDirectory(v));
      } else if r == ExtensionError {
        r := Success;
      }
      RanStep(RemovalStep(v), old(Now()), oracle, Now(), r);
    }

    // ----- Updating from one version to another -----

    /** Disables an extension of the old version; the new manifest says whether errors are passed over. */
    method DisableOldExtension(prior: Version, h: Handler, p: Package, extension: Option<Setting>,
                               oracle: nat -> Outcome)
      returns (r: Outcome)
      modifies this
      ensures Ran(OldVersionCommand(MarkDisabled(prior, h, extension), p), old(Now()), oracle, Now(), r)
    {
      var step := Command(MarkDisabled(prior, h, extension), Nothing, p.continueOnUpdateFailure);
      r := Check(oracle);
      if r != Success {
        RanUntil([CHECK], [step], old(Now()), Now(), oracle, r);
        return;
      }
      ghost var m := Now();
      r := Launch(oracle);
      if r == Success {
        SaveDisabled(prior, h, extension);
      } else if r == ExtensionError && p.continueOnUpdateFailure {
        r := Success;
      }
      RanStep(step, m, oracle, Now(), r);
      RanThen([CHECK], [step], old(Now()), m, Now(), oracle, r);
    }

    method UninstallOld(p: Package, oracle: nat -> Outcome) returns (r: Outcome)
      modifies this
      ensures Ran(OldVersionCommand(Nothing, p), old(Now()), oracle, Now(), r)
    {
      var step := Command(Nothing, Nothing, p.continueOnUpdateFailure);
      r := Check(oracle);
      if r != Success {
        RanUntil([CHECK], [step], old(Now()), Now(), oracle, r);
        return;
      }
      ghost var m := Now();
      r := Launch(oracle);
      if r == ExtensionError && p.continueOnUpdateFailure {
        r := Success;
      }
      RanStep(step, m, oracle, Now(), r);
      RanThen([CHECK], [step], old(Now()), m, Now(), oracle, r);
    }

    method DisableOldExtensions(prior: Version, h: Handler, p: Package, extensions: seq<Setting>,
                                oracle: nat -> Outcome)
      returns (r: Outcome)
      modifies this
      ensures Ran(DisableOld(prior, h, p, extensions), old(Now()), oracle, Now(), r)
    {
      r := Success;
      RanNothing(old(Now()), oracle);
      for i := 0 to |extensions|
        invariant r == Success
        invariant Ran(DisableOld(prior, h, p, extensions[..i]), old(Now()), oracle, Now(), Success)
      {
        ghost var m := Now();
        r := DisableOldExtension(prior, h, p, Some(extensions[i]), oracle);
        ghost var done, part, rest := extensions[..i], [extensions[i]], extensions[i + 1..];
        assert DisableOld(prior, h, p, part) == OldVersionCommand(MarkDisabled(prior, h, Some(extensions[i])), p);
        DisableOldConcat(prior, h, p, done, part);
        assert extensions[..i + 1] == done + part;
        if r != Success {
          DisableOldConcat(prior, h, p, done + part, rest);
          assert extensions == done + part + rest;
          RanAbort(DisableOld(prior, h, p, done), DisableOld(prior, h, p, part), DisableOld(prior, h, p, rest),
                   old(Now()), m, Now(), oracle, r);
          return;
        }
        RanThen(DisableOld(prior, h, p, done), DisableOld(prior, h, p, part), old(Now()), m, Now(), oracle, Success);
      }
      assert extensions[..|extensions|] == extensions;
    }

    method DisableExtensions(v: Version, h: Handler, extensions: seq<Setting>, oracle: nat -> Outcome)
      returns (r: Outcome)
      modifies this
      ensures Ran(DisableAll(v, h, extensions), old(Now()), oracle, Now(), r)
    {
      r := Success;
      RanNothing(old(Now()), oracle);
      for i := 0 to |extensions|
        invariant r == Success
        invariant Ran(DisableAll(v, h, extensions[..i]), old(Now()), oracle, Now(), Success)
      {
        ghost var m := Now();
        r := DisableExtension(v, h, Some(extensions[i]), oracle);
        ghost var done, part, rest := extensions[..i], [extensions[i]], extensions[i + 1..];
        assert DisableAll(v, h, part) == [Command(MarkDisabled(v, h, Some(extensions[i])), Nothing, false)];
        DisableAllConcat(v, h, done, part);
        assert extensions[..i + 1] == done + part;
        if r != Success {
          DisableAllConcat(v, h, done + part, rest);
          assert extensions == done + part + rest;
          RanAbort(DisableAll(v, h, done), DisableAll(v, h, part), DisableAll(v, h, rest), old(Now()), m, Now(),
                   oracle, r);
          return;
        }
        RanThen(DisableAll(v, h, done), DisableAll(v, h, part), old(Now()), m, Now(), oracle, Success);
      }
      assert extensions[..|extensions|] == extensions;
    }

    /** The update command of the greater version; its failure is recorded on that version. */
    method UpdateCommand(prior: Version, v: Version, oracle: nat -> Outcome) returns (r: Outcome)
      modifies this
      ensures Ran([Command(Nothing, Put(Max(v, prior), FailedUpgrade), false)], old(Now()), oracle, Now(), r)
    {
      r := Launch(oracle);
      if r == ExtensionError {
        var greater := if v > prior then v else prior;
        ApplyOne(disk, SetState(greater, FailedUpgrade));
        WriteFile(SetState(greater, FailedUpgrade));
      }
      RanStep(Command(Nothing, Put(Max(v, prior), FailedUpgrade), false), old(Now()), oracle, Now(), r);
    }

    /** The disable phase of an update. */
    method DisableOldVersion(prior: Version, h: Handler, p: Package, oracle: nat -> Outcome) returns (r: Outcome)
      modifies this
      ensures Ran(DisableOldPlan(old(disk), prior, h, p), old(Now()), oracle, Now(), r)
    {
      r := Success;
      RanNothing(Now(), oracle);
      if StateOf(disk, prior) == Enabled {
        if !h.multiConfig && h.settings == [] {
          r := DisableOldExtension(prior, h, p, None, oracle);
        } else {
          var enabled := GetEnabledSettings(prior, h);
          r := DisableOldExtensions(prior, h, p, enabled, oracle);
        }
      }
    }

    /** Everything an update does while the old version is still on disk. */
    method LeaveOldVersion(prior: Version, v: Version, h: Handler, p: Package, oracle: nat -> Outcome)
      returns (r: Outcome)
      modifies this
      ensures Ran(LeaveOldPlan(old(disk), prior, v, h, p), old(Now()), oracle, Now(), r)
    {
      ghost var disable := DisableOldPlan(disk, prior, h, p);
      ghost var update := [Command(Nothing, Put(Max(v, prior), FailedUpgrade), false)];
      ghost var uninstall := OldVersionCommand(Nothing, p);
      ghost var plan := LeaveOldPlan(disk, prior, v, h, p);
      assert plan == [CHECK] + disable + [CHECK] + update + uninstall;
      ghost var m := Now();
      r := Check(oracle);
      if r != Success {
        RanUntil([CHECK], disable + [CHECK] + update + uninstall, m, Now(), oracle, r);
        assert plan == [CHECK] + (disable + [CHECK] + update + uninstall);
        return;
      }
      ghost var m1 := Now();
      r := DisableOldVersion(prior, h, p, oracle);
      if r != Success {
        RanAbort([CHECK], disable, [CHECK] + update + uninstall, m, m1, Now(), oracle, r);
        assert plan == [CHECK] + disable + ([CHECK] + update + uninstall);
        return;
      }
      RanThen([CHECK], disable, m, m1, Now(), oracle, Success);
      ghost var m2 := Now();
      r := Check(oracle);
      if r != Success {
        RanAbort([CHECK] + disable, [CHECK], update + uninstall, m, m2, Now(), oracle, r);
        assert plan == [CHECK] + disable + [CHECK] + (update + uninstall);
        return;
      }
      RanThen([CHECK] + disable, [CHECK], m, m2, Now(), oracle, Success);
      ghost var m3 := Now();
      r := UpdateCommand(prior, v, oracle);
      if r != Success {
        RanAbort([CHECK] + disable + [CHECK], update, uninstall, m, m3, Now(), oracle, r);
        return;
      }
      RanThen([CHECK] + disable + [CHECK], update, m, m3, Now(), oracle, Success);
      ghost var m4 := Now();
      r := UninstallOld(p, oracle);
      RanThen([CHECK] + disable + [CHECK] + update, uninstall, m, m4, Now(), oracle, r);
    }

    /** update_with_install: the install command if the manifest asks for it, and the Installed state. */
    method EnterNewVersion(v: Version, p: Package, oracle: nat -> Outcome) returns (r: Outcome)
      modifies this
      ensures Ran(EnterNewPlan(v, p), old(Now()), oracle, Now(), r)
    {
      ghost var install := if p.updateWithInstall then [Command(Put(v, Installed), Nothing, false)] else [];
      ghost var save := [Always(Put(v, Installed))];
      ghost var m := Now();
      r := Check(oracle);
      if r != Success {
        RanUntil([CHECK], install + save, m, Now(), oracle, r);
        assert EnterNewPlan(v, p) == [CHECK] + (install + save);
        return;
      }
      ghost var m1 := Now();
      if p.updateWithInstall {
        r := LaunchThenPut(v, Installed, oracle);
        if r != Success {
          RanAbort([CHECK], install, save, m, m1, Now(), oracle, r);
          return;
        }
      } else {
        RanNothing(m1, oracle);
      }
      RanThen([CHECK], install, m, m1, Now(), oracle, Success);
      ghost var m2 := Now();
      SaveState(v, Installed, oracle);
      RanThen([CHECK] + install, save, m, m2, Now(), oracle, Success);
    }

    method UpdateHandler(prior: Version, v: Version, h: Handler, p: Package, oracle: nat -> Outcome)
      returns (r: Outcome)
      modifies this
      ensures Ran(UpdatePlan(old(disk), prior, v, h, p), old(Now()), oracle, Now(), r)
    {
      ghost var leave, enter := LeaveOldPlan(disk, prior, v, h, p), EnterNewPlan(v, p);
      ghost var m := Now();
      r := LeaveOldVersion(prior, v, h, p, oracle);
      if r != Success {
        RanUntil(leave, [RemovalStep(prior)] + enter, m, Now(), oracle, r);
        assert leave + [RemovalStep(prior)] + enter == leave + ([RemovalStep(prior)] + enter);
        return;
      }
      ghost var m1 := Now();
      r := RemoveHandler(prior, oracle);
      if r != Success {
        RanAbort(leave, [RemovalStep(prior)], enter, m, m1, Now(), oracle, r);
        return;
      }
      RanThen(leave, [RemovalStep(prior)], m, m1, Now(), oracle, Success);
      ghost var m2 := Now();
      r := EnterNewVersion(v, p, oracle);
      RanThen(leave + [RemovalStep(prior)], enter, m, m2, Now(), oracle, r);
    }

    // ----- The three requests -----

    method SaveState(v: Version, state: HandlerState, oracle: nat -> Outcome)
      modifies this
      ensures Ran([Always(Put(v, state))], old(Now()), oracle, Now(), Success)
      ensures disk == Apply(old(disk), SetState(v, state))
    {
      ApplyOne(disk, SetState(v, state));
      WriteFile(SetState(v, state));
      clock := clock + 1;
      RanStep(Always(Put(v, state)), old(Now()), oracle, Now(), Success);
    }

    /** A step on the package of v whose failure discards the directory. */
    method PackageStep(v: Version, tolerated: bool, oracle: nat -> Outcome) returns (r: Outcome)
      modifies this
      ensures Ran([Command(Nothing, Remove(v), tolerated)], old(Now()), oracle, Now(), r)
      ensures disk == old(disk) || disk == old(disk) - {v}
    {
      r := Launch(oracle);
      if r == ExtensionError {
        ApplyOne(disk, RemoveDirectory(v));
        WriteFile(RemoveDirectory(v));
        if tolerated {
          r := Success;
        }
      }
      RanStep(Command(Nothing, Remove(v), tolerated), old(Now()), oracle, Now(), r);
    }

    method FetchPackage(v: Version, oracle: nat -> Outcome) returns (r: Outcome)
      modifies this
      ensures Ran(PackagePlan(v), old(Now()), oracle, Now(), r)
      ensures disk - {v} == old(disk) - {v}
    {
      ghost var plan := PackagePlan(v);
      r := Success;
      RanNothing(Now(), oracle);
      for i := 0 to 3
        invariant r == Success && disk - {v} == old(disk) - {v}
        invariant Ran(plan[..i], old(Now()), oracle, Now(), Success)
      {
        ghost var m := Now();
        r := PackageStep(v, i == 0, oracle);
        assert plan[..i + 1] == plan[..i] + [plan[i]];
        if r != Success {
          RanAbort(plan[..i], [plan[i]], plan[i + 1..], old(Now()), m, Now(), oracle, r);
          assert plan == plan[..i] + [plan[i]] + plan[i + 1..];
          return;
        }
        RanThen(plan[..i], [plan[i]], old(Now()), m, Now(), oracle, Success);
      }
      assert plan[..3] == plan;
    }

    method SetupNewHandler(v: Version, oracle: nat -> Outcome) returns (r: Outcome)
      modifies this
      ensures Ran(SetupPlan(v), old(Now()), oracle, Now(), r)
      ensures disk - {v} == old(disk) - {v}
    {
      ghost var put, package := [Always(Put(v, NotInstalled))], PackagePlan(v);
      assert SetupPlan(v) == [CHECK] + put + package + [CHECK];
      ghost var m := Now();
      r := Check(oracle);
      if r != Success {
        RanUntil([CHECK], put + package + [CHECK], m, Now(), oracle, r);
        assert SetupPlan(v) == [CHECK] + (put + package + [CHECK]);
        return;
      }
      ghost var m1 := Now();
      SaveState(v, NotInstalled, oracle);
      RanThen([CHECK], put, m, m1, Now(), oracle, Success);
      ghost var m2 := Now();
      r := FetchPackage(v, oracle);
      if r != Success {
        RanAbort([CHECK] + put, package, [CHECK], m, m2, Now(), oracle, r);
        return;
      }
      RanThen([CHECK] + put, package, m, m2, Now(), oracle, Success);
      ghost var m3 := Now();
      r := Check(oracle);
      RanThen([CHECK] + put + package, [CHECK], m, m3, Now(), oracle, r);
    }

    method ApplyExtension(v: Version, h: Handler, extension: Option<Setting>, oracle: nat -> Outcome)
      returns (r: Outcome)
      modifies this
      ensures Ran(ExtensionPlan(v, h, extension), old(Now()), oracle, Now(), r)
    {
      if extension.None? {
        r := EnableExtension(v, h, None, oracle);
      } else {
        match extension.value.requested
        case RunExtension => r := EnableExtension(v, h, extension, oracle);
        case DropExtension => r := DisableIgnoringError(v, h, extension.value, oracle);
        case UnknownRequest =>
          r := OtherError;
          assert Execute(disk, [Raise], clock, oracle) == ([], OtherError);
          assert log + [] == log;
      }
    }

    /** Ensures that v is installed: nothing but checks if it is, else a fresh install or an update. */
    method EnsureInstalled(installed: Option<Version>, v: Version, h: Handler, p: Package, oracle: nat -> Outcome)
      returns (r: Outcome)
      requires IsInstalledVersion(disk, installed)
      modifies this
      ensures Ran(InstallPlan(old(disk), installed, v, h, p), old(Now()), oracle, Now(), r)
    {
      if IsInstalled(StateOf(disk, v)) {
        r := Check(oracle);
        return;
      }
      ghost var m := Now();
      ghost var next := if installed.None? then [Command(Put(v, Installed), Nothing, false)]
                        else UpdatePlan(disk, installed.value, v, h, p);
      r := SetupNewHandler(v, oracle);
      if r != Success {
        RanUntil(SetupPlan(v), next, m, Now(), oracle, r);
        return;
      }
      ghost var m1 := Now();
      if installed.None? {
        r := LaunchThenPut(v, Installed, oracle);
      } else {
        ghost var prior := installed.value;
        assert prior in m.disk - {v} && prior in disk - {v};
        assert (m.disk - {v})[prior] == (disk - {v})[prior];
        EnabledSettingsFrame(m.disk, disk, prior, h, h.settings);
        r := UpdateHandler(installed.value, v, h, p, oracle);
      }
      RanThen(SetupPlan(v), next, m, m1, Now(), oracle, r);
    }

    method HandleEnable(installed: Option<Version>, v: Version, h: Handler, extension: Option<Setting>, p: Package,
                        oracle: nat -> Outcome)
      returns (r: Outcome)
      requires IsInstalledVersion(disk, installed)
      modifies this
      ensures Ran(EnablePlan(old(disk), installed, v, h, extension, p), old(Now()), oracle, Now(), r)
    {
      ghost var install, apply := InstallPlan(disk, installed, v, h, p), ExtensionPlan(v, h, extension);
      ghost var m := Now();
      r := EnsureInstalled(installed, v, h, p, oracle);
      if r != Success {
        RanUntil(install, apply, m, Now(), oracle, r);
        return;
      }
      ghost var m1 := Now();
      r := ApplyExtension(v, h, extension, oracle);
      RanThen(install, apply, m, m1, Now(), oracle, r);
    }

    method HandleDisable(v: Version, h: Handler, extension: Option<Setting>, oracle: nat -> Outcome)
      returns (r: Outcome)
      modifies this
      ensures Ran(DisablePlan(old(disk), v, h, extension), old(Now()), oracle, Now(), r)
    {
      r := Success;
      RanNothing(Now(), oracle);
      if StateOf(disk, v) == Enabled {
        r := DisableExtension(v, h, extension, oracle);
      }
    }

    method DisableEverything(v: Version, h: Handler, oracle: nat -> Outcome) returns (r: Outcome)
      modifies this
      ensures Ran(DisableAllPlan(old(disk), v, h), old(Now()), oracle, Now(), r)
    {
      r := Success;
      RanNothing(Now(), oracle);
      if StateOf(disk, v) == Enabled {
        if !h.multiConfig && h.settings == [] {
          r := DisableExtension(v, h, None, oracle);
        } else {
          var enabled := GetEnabledSettings(v, h);
          r := DisableExtensions(v, h, enabled, oracle);
        }
      }
    }

    /** The uninstall command of the handler, whose ExtensionError is only logged. */
    method UninstallCommand(oracle: nat -> Outcome) returns (r: Outcome)
      modifies this
      ensures Ran([Command(Nothing, Nothing, true)], old(Now()), oracle, Now(), r)
    {
      r := Launch(oracle);
      if r == ExtensionError {
        r := Success;
      }
      RanStep(Command(Nothing, Nothing, true), old(Now()), oracle, Now(), r);
    }

    method StopHandler(v: Version, h: Handler, oracle: nat -> Outcome) returns (r: Outcome)
      modifies this
      ensures Ran(StopPlan(old(disk), v, h), old(Now()), oracle, Now(), r)
    {
      r := Success;
      RanNothing(Now(), oracle);
      if StateOf(disk, v) == NotInstalled {
        return;
      }
      ghost var disable, uninstall := DisableAllPlan(disk, v, h), [Command(Nothing, Nothing, true)];
      ghost var m := Now();
      r := Check(oracle);
      if r != Success {
        RanUntil([CHECK], disable + uninstall, m, Now(), oracle, r);
        assert [CHECK] + disable + uninstall == [CHECK] + (disable + uninstall);
        return;
      }
      ghost var m1 := Now();
      r := DisableEverything(v, h, oracle);
      if r != Success {
        RanAbort([CHECK], disable, uninstall, m, m1, Now(), oracle, r);
        return;
      }
      RanThen([CHECK], disable, m, m1, Now(), oracle, Success);
      ghost var m2 := Now();
      r := UninstallCommand(oracle);
      RanThen([CHECK] + disable, uninstall, m, m2, Now(), oracle, r);
    }

    method HandleUninstall(v: Version, h: Handler, oracle: nat -> Outcome) returns (r: Outcome)
      modifies this
      ensures Ran(UninstallPlan(old(disk), v, h), old(Now()), oracle, Now(), r)
    {
      ghost var stop := StopPlan(disk, v, h);
      ghost var m := Now();
      r := StopHandler(v, h, oracle);
      if r != Success {
        RanUntil(stop, [RemovalStep(v)], m, Now(), oracle, r);
        return;
      }
      ghost var m1 := Now();
      r := RemoveHandler(v, oracle);
      RanThen(stop, [RemovalStep(v)], m, m1, Now(), oracle, r);
    }

    /** handle_ext_handler for one request, from deciding the version to the last command. At most one
        version is installed at every moment of it if that was so before and removals work. */
    method HandleRequest(req: Request, oracle: nat -> Outcome) returns (r: Outcome, ghost installed: Option<Version>)
      modifies this
      ensures IsInstalledVersion(old(disk), installed)
      ensures Ran(RequestPlan(old(disk), installed, req), old(Now()), oracle, Now(), r)
      ensures AtMostOne(old(disk)) && RemovalsWork(RequestPlan(old(disk), installed, req), old(clock), oracle) ==>
                SafeThroughout(old(disk), log[|old(log)|..])
    {
      if AtMostOne(disk) {
        forall installed | IsInstalledVersion(disk, installed) &&
                           RemovalsWork(RequestPlan(disk, installed, req), clock, oracle)
          ensures SafeThroughout(disk, Execute(disk, RequestPlan(disk, installed, req), clock, oracle).0)
        {
          RequestIsSafe(disk, installed, req, clock, oracle);
        }
      }
      var latest := GetInstalledVersion();
      installed := latest;
      ghost var plan := RequestPlan(disk, installed, req);
      ghost var rest := plan[1..];
      assert plan == [CHECK] + rest;
      ghost var m := Now();
      r := Check(oracle);
      if r != Success {
        RanUntil([CHECK], rest, m, Now(), oracle, r);
        return;
      }
      ghost var m1 := Now();
      var present := if latest.Some? then latest.value else req.version;
      match req.operation {
        case Enable => r := HandleEnable(latest, req.version, req.h, req.extension, req.p, oracle);
        case Disable => r := HandleDisable(present, req.h, req.extension, oracle);
        case Uninstall => r := HandleUninstall(present, req.h, oracle);
      }
      RanThen([CHECK], rest, m, m1, Now(), oracle, r);
    }
  }
}
