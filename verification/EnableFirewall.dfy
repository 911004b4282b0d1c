/** IpTables and EnableFirewall as the source writes them: loops over the rules that check, delete
    and append one at a time, and the reporting fields updated along the way. */
module EnableFirewalls {
  import opened Common
  import opened FirewallRules
  import opened FirewallReports

  /** The outcome of a check whose first rules went to `missing` and `existing`. */
  ghost function Joined(missing: seq<Rule>, existing: seq<Rule>, r: (Net, Option<(seq<Rule>, seq<Rule>)>)):
    (Net, Option<(seq<Rule>, seq<Rule>)>)
  {
    (r.0, if r.1.None? then None else Some((missing + r.1.value.0, existing + r.1.value.1)))
  }

  lemma {:induction false} JoinedStep(missing: seq<Rule>, existing: seq<Rule>, s: Net, rules: seq<Rule>, c: Commands)
    requires rules != []
    ensures var code := CheckCode(s.chain, rules[0], c.check(s.clock));
            var s1 := Advance(s, s.chain);
            Joined(missing, existing, CheckRules(s, rules, c)) ==
              if code != 0 && code != 1 then (s1, None)
              else if code == 0 then Joined(missing, existing + [rules[0]], CheckRules(s1, rules[1..], c))
              else Joined(missing + [rules[0]], existing, CheckRules(s1, rules[1..], c))
  {
    var rest := CheckRules(Advance(s, s.chain), rules[1..], c).1;
    if rest.Some? {
      assert existing + ([rules[0]] + rest.value.1) == (existing + [rules[0]]) + rest.value.1;
      assert missing + ([rules[0]] + rest.value.0) == (missing + [rules[0]]) + rest.value.0;
    }
  }

  class IpTables {
    var chain: Chain
    var clock: nat
    ghost var past: seq<Chain>

    ghost function Now(): Net
      reads this
    {
      Net(chain, clock, past)
    }

    constructor (chain: Chain)
      ensures Now() == Net(chain, 0, [])
    {
      this.chain := chain;
      clock := 0;
      past := [];
    }

    /** The exit code of -C; the rule exists if it is 0 and does not if it is 1. */
    method RunCheck(rule: Rule, c: Commands) returns (code: int)
      modifies this
      ensures code == CheckCode(old(chain), rule, c.check(old(clock)))
      ensures Now() == Advance(old(Now()), old(chain))
    {
      match c.check(clock) {
        case Works => code := if Agent(rule, true) in chain then 0 else 1;
        case Exits(exitCode) => code := exitCode;
      }
      clock := clock + 1;
      past := past + [chain];
    }

    /** The place of the first instance, or the length of the chain. */
    static method Locate(chain: Chain, e: Entry) returns (i: nat)
      ensures i <= |chain| && e !in chain[..i] && (i < |chain| ==> chain[i] == e)
      ensures i < |chain| ==> chain[..i] + chain[i + 1..] == WithoutFirst(chain, e)
    {
      i := 0;
      while i < |chain| && chain[i] != e
        invariant i <= |chain| && e !in chain[..i]
        invariant WithoutFirst(chain, e) == chain[..i] + WithoutFirst(chain[i..], e)
      {
        assert chain[i..][1..] == chain[i + 1..];
        i := i + 1;
      }
      if i < |chain| {
        assert chain[i..][1..] == chain[i + 1..];
      }
    }

    method RunDelete(rule: Rule, c: Commands) returns (code: int)
      modifies this
      ensures (chain, code) == DeleteCommand(old(chain), rule, c.delete(old(clock)))
      ensures Now() == Advance(old(Now()), chain)
    {
      match c.delete(clock) {
        case Works =>
          var i := Locate(chain, Agent(rule, true));
          if i < |chain| {
            code := 0;
            chain := chain[..i] + chain[i + 1..];
          } else {
            code := 1;
          }
        case Exits(exitCode) =>
          code := exitCode;
      }
      clock := clock + 1;
      past := past + [chain];
    }

    /** _FirewallManagerIndividualRules.check followed by the override in IpTables. */
    method CheckAll(c: Commands) returns (r: CheckResult)
      modifies this
      ensures (Now(), r) == Check(old(Now()), c)
    {
      var missing: seq<Rule>, existing: seq<Rule> := [], [];
      ghost var all := CheckRules(Now(), RULES, c).1;
      assert all.Some? ==> [] + all.value.0 == all.value.0 && [] + all.value.1 == all.value.1;
      assert RULES[0..] == RULES;
      for i := 0 to |RULES|
        invariant chain == old(chain)
        invariant CheckRules(old(Now()), RULES, c) == Joined(missing, existing, CheckRules(Now(), RULES[i..], c))
      {
        JoinedStep(missing, existing, Now(), RULES[i..], c);
        assert RULES[i..][1..] == RULES[i + 1..];
        var code := RunCheck(RULES[i], c);
        if code != 0 && code != 1 {
          return CheckRaises;
        }
        if code == 0 {
          existing := existing + [RULES[i]];
        } else {
          missing := missing + [RULES[i]];
        }
      }
      assert missing + [] == missing && existing + [] == existing;
      assert CheckRules(old(Now()), RULES, c) == (Now(), Some((missing, existing)));
      if |missing| == 0 {
        return AllPresent;
      }
      if |existing| == 0 {
        return NonePresent;
      }
      r := Compare(missing, c);
    }

    /** Looks for the missing rules in the listing of the chain. */
    method Compare(missing: seq<Rule>, c: Commands) returns (r: CheckResult)
      modifies this
      ensures Now() == Advance(old(Now()), old(chain))
      ensures r == if c.list(old(clock)).Exits? then CheckRaises
                   else if exists i :: 0 <= i < |missing| && Listed(chain, missing[i]) then Inconsistent
                   else SomeMissing
    {
      var listed := c.list(clock);
      clock := clock + 1;
      past := past + [chain];
      if listed.Exits? {
        return CheckRaises;
      }
      for i := 0 to |missing|
        invariant forall j :: 0 <= j < i ==> !Listed(chain, missing[j])
      {
        if Listed(chain, missing[i]) {
          return Inconsistent;
        }
      }
      return SomeMissing;
    }

    /** Up to 99 attempts at deleting a rule. */
    method DeleteInstances(rule: Rule, c: Commands) returns (ok: bool)
      modifies this
      ensures (Now(), ok) == DeleteRule(old(Now()), rule, DELETE_TRIES, c)
    {
      for i := 0 to DELETE_TRIES
        invariant DeleteRule(old(Now()), rule, DELETE_TRIES, c) == DeleteRule(Now(), rule, DELETE_TRIES - i, c)
      {
        var code := RunDelete(rule, c);
        if code == 1 {
          return true;
        }
        if code == 2 {
          return false;
        }
      }
      return true;
    }

    method RemoveAll(c: Commands) returns (ok: bool)
      modifies this
      ensures (Now(), ok) == Remove(old(Now()), RULES, c)
    {
      for i := 0 to |RULES|
        invariant Remove(old(Now()), RULES, c) == Remove(Now(), RULES[i..], c)
      {
        var code := RunCheck(RULES[i], c);
        if code != 0 && code != 1 {
          return false;
        }
        if code == 0 {
          var deleted := DeleteInstances(RULES[i], c);
          if !deleted {
            return false;
          }
        }
      }
      return true;
    }

    method SetupAll(c: Commands) returns (ok: bool)
      modifies this
      ensures (Now(), ok) == Setup(old(Now()), RULES, c)
    {
      for i := 0 to |RULES|
        invariant Setup(old(Now()), RULES, c) == Setup(Now(), RULES[i..], c)
      {
        var failed := c.append(clock).Exits?;
        if !failed {
          chain := chain + [Agent(RULES[i], c.appendsVisible(clock))];
        }
        clock := clock + 1;
        past := past + [chain];
        if failed {
          return false;
        }
      }
      return true;
    }
  }

  class EnableFirewall {
    const manager: IpTables
    var state: FirewallState
    var reports: nat
    var periodReports: nat
    var periodEnd: int
    var shouldReport: bool

    ghost function Limiter(): Reporter
      reads this
    {
      Reporter(state, reports, periodReports, periodEnd, shouldReport)
    }

    constructor (manager: IpTables, now: int)
      ensures this.manager == manager && Limiter() == Created(now)
    {
      this.manager := manager;
      state, reports, periodReports := OK, 0, 0;
      periodEnd := now + REPORTING_PERIOD;
      shouldReport := true;
    }

    method BeginReport(x: Execution)
      modifies this
      ensures Limiter() == UpdateReportingState(old(Limiter()), x)
    {
      if x.now >= periodEnd {
        reports, periodReports := 0, 0;
        periodEnd := x.resetNow + REPORTING_PERIOD;
      }
      var max := if state == OK then MAX_REPORTS_WHEN_OK else MAX_REPORTS_WHEN_NOT_OK;
      shouldReport := reports < max && periodReports < MAX_REPORTS_PER_PERIOD;
    }

    method EndReport()
      modifies this
      ensures Limiter() == Finish(old(Limiter()))
    {
      if shouldReport {
        reports := reports + 1;
        periodReports := periodReports + 1;
      }
    }

    method SetState(s: FirewallState)
      modifies this
      ensures Limiter() == UpdateFirewallState(old(Limiter()), s)
    {
      if (state == OK) != (s == OK) {
        if periodReports < MAX_REPORTS_PER_PERIOD {
          reports := 0;
          shouldReport := true;
        }
      }
      state := s;
    }

    /** What the execution does to the chain, recording the state as it goes. */
    method TryEnable(created: bool, c: Commands) returns (ghost states: seq<FirewallState>)
      modifies this, manager
      ensures (manager.Now(), states) == Operation(old(manager.Now()), created, c)
      ensures Limiter() == UpdateStates(old(Limiter()), states)
    {
      if !created {
        SetState(Unknown);
        return [Unknown];
      }
      var r := manager.CheckAll(c);
      if r == AllPresent {
        SetState(OK);
        return [OK];
      }
      if r == Inconsistent {
        SetState(InconsistentState);
        return [InconsistentState];
      }
      if r == CheckRaises {
        SetState(Unknown);
        return [Unknown];
      }
      var first := if r == NonePresent then NotSet else Invalid;
      SetState(first);
      var ok := true;
      if r == SomeMissing {
        ok := manager.RemoveAll(c);
      }
      if ok {
        ok := manager.SetupAll(c);
      }
      SetState(if ok then OK else Unknown);
      states := [first, if ok then OK else Unknown];
      assert states == [first] + [if ok then OK else Unknown];
      assert UpdateStates(old(Limiter()), states) == Limiter() by {
        assert states[1..] == [if ok then OK else Unknown] && states[1..][1..] == [];
      }
    }

    method RunOperation(now: int, resetNow: int, created: bool, c: Commands) returns (ghost states: seq<FirewallState>)
      modifies this, manager
      ensures (manager.Now(), states) == Operation(old(manager.Now()), created, c)
      ensures Limiter() == Execute(old(Limiter()), Execution(now, resetNow, states))
    {
      BeginReport(Execution(now, resetNow, []));
      ghost var begun := Limiter();
      states := TryEnable(created, c);
      assert begun == UpdateReportingState(old(Limiter()), Execution(now, resetNow, states));
      EndReport();
    }
  }
}
