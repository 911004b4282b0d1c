/** The agent's rules stay in order without any command ever looking at their order. */
module FirewallTheorems {
  import opened Common
  import opened FirewallRules

  // ----- Ordered chains -----

  function AgentRules(chain: Chain): seq<Rule> {
    if chain == [] then []
    else (if chain[0].Agent? then [chain[0].rule] else []) + AgentRules(chain[1..])
  }

  function Rank(r: Rule): nat {
    match r
    case AcceptDns => 0
    case Accept => 1
    case Drop => 2
  }

  /** A duplicate-free subsequence of RULES, in the same order. */
  ghost predicate InOrder(rs: seq<Rule>) {
    forall i, j :: 0 <= i < j < |rs| ==> Rank(rs[i]) < Rank(rs[j])
  }

  ghost predicate Ordered(chain: Chain) {
    InOrder(AgentRules(chain))
  }

  lemma {:induction false} AgentRulesConcat(a: Chain, b: Chain)
    ensures AgentRules(a + b) == AgentRules(a) + AgentRules(b)
  {
    if a == [] {
      assert a + b == b;
    } else {
      assert (a + b)[0] == a[0] && (a + b)[1..] == a[1..] + b;
      AgentRulesConcat(a[1..], b);
    }
  }

  lemma {:induction false} AgentRulesCons(e: Entry, rest: Chain)
    ensures AgentRules([e] + rest) == (if e.Agent? then [e.rule] else []) + AgentRules(rest)
  {
    assert ([e] + rest)[1..] == rest;
  }

  lemma {:induction false} TakeOutLater(first: seq<Rule>, rs: seq<Rule>, m: nat)
    requires m < |rs|
    ensures first + (rs[..m] + rs[m + 1..]) == (first + rs)[..|first| + m] + (first + rs)[|first| + m + 1..]
  {
  }

  /** The agent's rules with one occurrence of r taken out, at some place. */
  lemma {:induction false} DeleteTakesOut(chain: Chain, r: Rule) returns (k: nat)
    requires Agent(r, true) in chain
    ensures k < |AgentRules(chain)| && AgentRules(chain)[k] == r
    ensures AgentRules(WithoutFirst(chain, Agent(r, true))) == AgentRules(chain)[..k] + AgentRules(chain)[k + 1..]
  {
    var head, rest := chain[0], chain[1..];
    assert chain == [head] + rest;
    AgentRulesCons(head, rest);
    if head == Agent(r, true) {
      k := 0;
    } else {
      var m := DeleteTakesOut(rest, r);
      var first := if head.Agent? then [head.rule] else [];
      AgentRulesCons(head, WithoutFirst(rest, Agent(r, true)));
      TakeOutLater(first, AgentRules(rest), m);
      k := |first| + m;
    }
  }

  lemma {:induction false} DeleteKeepsOrder(chain: Chain, r: Rule, e: Effect)
    requires Ordered(chain)
    ensures Ordered(DeleteCommand(chain, r, e).0)
  {
    if e.Works? && Agent(r, true) in chain {
      var k := DeleteTakesOut(chain, r);
    }
  }

  lemma {:induction false} RankAtLeastPlace(rs: seq<Rule>, i: nat)
    requires InOrder(rs) && i < |rs|
    ensures Rank(rs[i]) >= i
  {
    if i > 0 {
      RankAtLeastPlace(rs, i - 1);
    }
  }

  /** Ordered rules that include all three are the three, each in its place. */
  lemma {:induction false} OrderedAndComplete(rs: seq<Rule>)
    requires InOrder(rs) && AcceptDns in rs && Accept in rs && Drop in rs
    ensures rs == RULES
  {
    RankAtLeastPlace(rs, |rs| - 1);
    var i :| 0 <= i < |rs| && rs[i] == AcceptDns;
    var j :| 0 <= j < |rs| && rs[j] == Accept;
    var k :| 0 <= k < |rs| && rs[k] == Drop;
    assert i < j;
    assert j < k;
  }

  // ----- What one command sequence does to the order -----

  ghost predicate OrderedThroughout(chains: seq<Chain>) {
    forall i :: 0 <= i < |chains| ==> Ordered(chains[i])
  }

  /** In order now and after every command so far. */
  ghost predicate KeptOrder(s: Net) {
    Ordered(s.chain) && OrderedThroughout(s.past)
  }

  /** Checks leave the chain alone. */
  lemma {:induction false} CheckRulesReads(s: Net, rules: seq<Rule>, c: Commands)
    ensures var s' := CheckRules(s, rules, c).0;
            s'.chain == s.chain && (KeptOrder(s) ==> KeptOrder(s'))
    decreases |rules|
  {
    if rules != [] {
      CheckRulesReads(Advance(s, s.chain), rules[1..], c);
    }
  }

  /** Whatever the outcome of each try, deleting never disturbs the order. */
  lemma {:induction false} DeleteRuleKeepsOrder(s: Net, rule: Rule, tries: nat, c: Commands)
    requires KeptOrder(s)
    ensures var s' := DeleteRule(s, rule, tries, c).0; KeptOrder(s')
    decreases tries
  {
    if tries > 0 {
      DeleteKeepsOrder(s.chain, rule, c.delete(s.clock));
      var chain := DeleteCommand(s.chain, rule, c.delete(s.clock)).0;
      DeleteRuleKeepsOrder(Advance(s, chain), rule, tries - 1, c);
    }
  }

  lemma {:induction false} RemoveKeepsOrder(s: Net, rules: seq<Rule>, c: Commands)
    requires KeptOrder(s)
    ensures KeptOrder(Remove(s, rules, c).0)
    decreases |rules|
  {
    if rules != [] {
      RemoveOneKeepsOrder(s, rules[0], c);
      RemoveKeepsOrder(RemoveOne(s, rules[0], c).0, rules[1..], c);
    }
  }

  lemma {:induction false} RemoveOneKeepsOrder(s: Net, rule: Rule, c: Commands)
    requires KeptOrder(s)
    ensures KeptOrder(RemoveOne(s, rule, c).0)
  {
    DeleteRuleKeepsOrder(Advance(s, s.chain), rule, DELETE_TRIES, c);
  }

  lemma {:induction false} BeforeSetupKeepsOrder(s: Net, c: Commands)
    requires KeptOrder(s)
    ensures var s' := BeforeSetup(s, c).0; KeptOrder(s')
  {
    CheckRulesReads(s, RULES, c);
    var s1 := Check(s, c).0;
    RemoveKeepsOrder(s1, RULES, c);
  }

  /** Appending to a chain whose agent rules all come before the rules to append. */
  lemma {:induction false} SetupKeepsOrder(s: Net, rules: seq<Rule>, c: Commands)
    requires KeptOrder(s) && InOrder(AgentRules(s.chain) + rules)
    ensures var s' := Setup(s, rules, c).0; KeptOrder(s')
    decreases |rules|
  {
    if rules != [] && c.append(s.clock).Works? {
      var entry := Agent(rules[0], c.appendsVisible(s.clock));
      var rs := AgentRules(s.chain);
      AgentRulesConcat(s.chain, [entry]);
      assert AgentRules([entry]) == [rules[0]];
      assert rs + rules == (rs + [rules[0]]) + rules[1..];
      assert rs + [rules[0]] == (rs + rules)[..|rs| + 1];
      SetupKeepsOrder(Advance(s, s.chain + [entry]), rules[1..], c);
    }
  }

  /** With agent rules already in the chain, the first append that works breaks the order. */
  lemma {:induction false} SetupOnTopBreaksOrder(s: Net, c: Commands)
    requires KeptOrder(s) && AgentRules(s.chain) != []
    ensures var s' := Setup(s, RULES, c).0;
            (KeptOrder(s')) <==> c.append(s.clock).Exits?
  {
    if c.append(s.clock).Works? {
      var entry := Agent(AcceptDns, c.appendsVisible(s.clock));
      var rs := AgentRules(s.chain);
      AgentRulesConcat(s.chain, [entry]);
      assert AgentRules([entry]) == [AcceptDns];
      var broken := s.chain + [entry];
      assert AgentRules(broken) == rs + [AcceptDns];
      assert Rank((rs + [AcceptDns])[0]) >= Rank((rs + [AcceptDns])[|rs|]);
      SetupKeepsPast(Advance(s, broken), RULES[1..], c);
      var s' := Setup(s, RULES, c).0;
      assert s'.past[|s.past|] == broken;
    }
  }

  lemma {:induction false} SetupKeepsPast(s: Net, rules: seq<Rule>, c: Commands)
    ensures s.past <= Setup(s, rules, c).0.past
    decreases |rules|
  {
    if rules != [] && c.append(s.clock).Works? {
      SetupKeepsPast(Advance(s, s.chain + [Agent(rules[0], c.appendsVisible(s.clock))]), rules[1..], c);
    }
  }

  lemma {:induction false} SetupOfCleanChain(s: Net, rules: seq<Rule>, c: Commands)
    requires KeptOrder(s) && AgentRules(s.chain) == [] && InOrder(rules)
    ensures KeptOrder(Setup(s, rules, c).0)
  {
    assert AgentRules(s.chain) + rules == rules;
    SetupKeepsOrder(s, rules, c);
  }

  lemma {:induction false} SetupKeepsOrderExactlyWhen(s: Net, rules: seq<Rule>, c: Commands)
    requires KeptOrder(s) && rules == RULES
    ensures KeptOrder(Setup(s, rules, c).0) <==> AgentRules(s.chain) == [] || c.append(s.clock).Exits?
  {
    if AgentRules(s.chain) == [] {
      SetupOfCleanChain(s, rules, c);
    } else {
      SetupOnTopBreaksOrder(s, c);
    }
  }

  /** One execution keeps the agent's rules in order at every moment exactly when it does not come
      to append to a chain that still holds agent rules, or its first append fails. */
  lemma {:induction false} OperationKeepsOrderExactlyWhen(s: Net, c: Commands)
    requires KeptOrder(s)
    ensures var (before, goesOn, _) := BeforeSetup(s, c);
            KeptOrder(Operation(s, true, c).0) <==>
              !goesOn || AgentRules(before.chain) == [] || c.append(before.clock).Exits?
  {
    BeforeSetupKeepsOrder(s, c);
    var (before, goesOn, states) := BeforeSetup(s, c);
    if goesOn {
      SetupKeepsOrderExactlyWhen(before, RULES, c);
    }
  }

  // ----- Commands that do not lie -----

  ghost predicate HonestChecks(c: Commands) {
    forall k :: c.check(k).Exits? ==> c.check(k).code != 0 && c.check(k).code != 1
  }

  /** Checks find a rule exactly when it is there or else raise; deletes work or exit with code 2;
      appends may fail in any way; appended rules are visible. */
  ghost predicate Honest(c: Commands) {
    && HonestChecks(c)
    && (forall k :: c.delete(k).Exits? ==> c.delete(k).code == 2)
    && (forall k :: c.appendsVisible(k))
  }

  ghost predicate AllVisible(chain: Chain) {
    forall i :: 0 <= i < |chain| && chain[i].Agent? ==> chain[i].visible
  }

  lemma {:induction false} RulesOfVisibleChain(chain: Chain, r: Rule)
    requires AllVisible(chain)
    ensures r in AgentRules(chain) <==> Agent(r, true) in chain
  {
    if chain != [] {
      assert AllVisible(chain[1..]);
      RulesOfVisibleChain(chain[1..], r);
      assert chain == [chain[0]] + chain[1..];
    }
  }

  /** The lists built by a check that does not raise. */
  lemma {:induction false} CheckRulesIsExact(s: Net, rules: seq<Rule>, c: Commands)
    requires HonestChecks(c)
    ensures (forall k :: c.check(k).Works?) ==> CheckRules(s, rules, c).1.Some?
    ensures var found := CheckRules(s, rules, c).1;
            found.Some? ==>
              && (forall r :: r in found.value.0 <==> r in rules && Agent(r, true) !in s.chain)
              && (forall r :: r in found.value.1 <==> r in rules && Agent(r, true) in s.chain)
    decreases |rules|
  {
    if rules != [] {
      CheckRulesIsExact(Advance(s, s.chain), rules[1..], c);
      assert rules == [rules[0]] + rules[1..];
    }
  }

  function Count(chain: Chain, e: Entry): nat {
    if chain == [] then 0 else (if chain[0] == e then 1 else 0) + Count(chain[1..], e)
  }

  lemma {:induction false} CountIsMembership(chain: Chain, e: Entry)
    ensures e in chain <==> Count(chain, e) > 0
  {
    if chain != [] {
      CountIsMembership(chain[1..], e);
      assert chain == [chain[0]] + chain[1..];
    }
  }

  lemma {:induction false} WithoutFirstTakesOne(chain: Chain, e: Entry)
    requires e in chain
    ensures Count(WithoutFirst(chain, e), e) == Count(chain, e) - 1
    ensures forall x :: x in WithoutFirst(chain, e) ==> x in chain
  {
    if chain[0] != e {
      WithoutFirstTakesOne(chain[1..], e);
      var rest := WithoutFirst(chain[1..], e);
      assert WithoutFirst(chain, e) == [chain[0]] + rest && ([chain[0]] + rest)[1..] == rest;
    }
  }

  /** A delete loop that returns normally has removed every instance, if there are at most as many
      as it has tries; it never adds anything. */
  lemma {:induction false} DeleteRuleRemovesAll(s: Net, rule: Rule, tries: nat, c: Commands)
    requires Honest(c) && Count(s.chain, Agent(rule, true)) <= tries
    ensures var (s', ok) := DeleteRule(s, rule, tries, c);
            && (ok ==> Agent(rule, true) !in s'.chain)
            && (forall x :: x in s'.chain ==> x in s.chain)
    decreases tries
  {
    var e := Agent(rule, true);
    CountIsMembership(s.chain, e);
    if tries > 0 && c.delete(s.clock).Works? && e in s.chain {
      WithoutFirstTakesOne(s.chain, e);
      DeleteRuleRemovesAll(Advance(s, WithoutFirst(s.chain, e)), rule, tries - 1, c);
    }
  }

  /** Works, exits with 1 or exits with 2; any other code only costs a try. */
  predicate Decisive(e: Effect) {
    e.Works? || e.code == 1 || e.code == 2
  }

  /** The number of the first delete command, among so many tries, that is decisive. */
  function FirstDecisive(clock: nat, tries: nat, c: Commands): (r: Option<nat>)
    ensures r.Some? ==> clock <= r.value < clock + tries && Decisive(c.delete(r.value))
    ensures forall t :: clock <= t < (if r.Some? then r.value else clock + tries) ==> !Decisive(c.delete(t))
    decreases tries
  {
    if tries == 0 then None
    else if Decisive(c.delete(clock)) then Some(clock)
    else FirstDecisive(clock + 1, tries - 1, c)
  }

  lemma {:induction false} IndecisiveTry(s: Net, rule: Rule, tries: nat, c: Commands)
    requires tries > 0 && !Decisive(c.delete(s.clock))
    ensures DeleteRule(s, rule, tries, c) == DeleteRule(Advance(s, s.chain), rule, tries - 1, c)
  {
  }

  lemma {:induction false} NoInstanceNoChange(s: Net, rule: Rule, tries: nat, c: Commands)
    requires Agent(rule, true) !in s.chain
    ensures DeleteRule(s, rule, tries, c).0.chain == s.chain
    decreases tries
  {
    if tries > 0 {
      NoInstanceNoChange(Advance(s, s.chain), rule, tries - 1, c);
    }
  }

  /** With one instance in the chain and any exit codes, the delete loop returns normally and leaves the rule in place
      exactly when its first decisive try exits with 1, or none of its tries is decisive. */
  lemma {:induction false} DeleteLeavesRuleExactlyWhen(s: Net, rule: Rule, tries: nat, c: Commands)
    requires Count(s.chain, Agent(rule, true)) == 1
    ensures var (s', ok) := DeleteRule(s, rule, tries, c);
            var k := FirstDecisive(s.clock, tries, c);
            ok && Agent(rule, true) in s'.chain <==> k.None? || c.delete(k.value) == Exits(1)
    decreases tries
  {
    var e := Agent(rule, true);
    CountIsMembership(s.chain, e);
    if tries > 0 {
      if !Decisive(c.delete(s.clock)) {
        IndecisiveTry(s, rule, tries, c);
        DeleteLeavesRuleExactlyWhen(Advance(s, s.chain), rule, tries - 1, c);
      } else if c.delete(s.clock).Works? {
        var gone := WithoutFirst(s.chain, e);
        WithoutFirstTakesOne(s.chain, e);
        CountIsMembership(gone, e);
        NoInstanceNoChange(Advance(s, gone), rule, tries - 1, c);
      }
    }
  }

  lemma {:induction false} CountIsBounded(chain: Chain, r: Rule)
    ensures Count(chain, Agent(r, true)) <= |AgentRules(chain)|
  {
    if chain != [] {
      CountIsBounded(chain[1..], r);
    }
  }

  lemma {:induction false} FewInstances(chain: Chain, r: Rule)
    requires Ordered(chain)
    ensures Count(chain, Agent(r, true)) <= DELETE_TRIES
  {
    CountIsBounded(chain, r);
    var rs := AgentRules(chain);
    if rs != [] {
      RankAtLeastPlace(rs, |rs| - 1);
    }
  }

  lemma {:induction false} RemoveOneRemovesAll(s: Net, rule: Rule, c: Commands)
    requires Honest(c) && KeptOrder(s)
    ensures var (s', ok) := RemoveOne(s, rule, c);
            (ok ==> Agent(rule, true) !in s'.chain) && (forall x :: x in s'.chain ==> x in s.chain)
  {
    FewInstances(s.chain, rule);
    DeleteRuleRemovesAll(Advance(s, s.chain), rule, DELETE_TRIES, c);
  }

  /** A removal that returns normally leaves none of the rules. */
  lemma {:induction false} RemoveRemovesAll(s: Net, rules: seq<Rule>, c: Commands)
    requires Honest(c) && KeptOrder(s)
    ensures var (s', ok) := Remove(s, rules, c);
            && (ok ==> forall r :: r in rules ==> Agent(r, true) !in s'.chain)
            && (forall x :: x in s'.chain ==> x in s.chain)
    decreases |rules|
  {
    if rules != [] {
      assert rules == [rules[0]] + rules[1..];
      RemoveOneRemovesAll(s, rules[0], c);
      RemoveOneKeepsOrder(s, rules[0], c);
      RemoveRemovesAll(RemoveOne(s, rules[0], c).0, rules[1..], c);
    }
  }

  lemma {:induction false} EveryRuleListed(r: Rule)
    ensures r in RULES
  {
    assert RULES[Rank(r)] == r;
  }

  lemma {:induction false} NoAgentRules(chain: Chain)
    requires AllVisible(chain) && forall r :: r in RULES ==> Agent(r, true) !in chain
    ensures AgentRules(chain) == []
  {
    var rs := AgentRules(chain);
    if rs != [] {
      EveryRuleListed(rs[0]);
      RulesOfVisibleChain(chain, rs[0]);
      assert false;
    }
  }

  lemma {:induction false} VisibleWithin(chain: Chain, within: Chain)
    requires AllVisible(chain) && forall x :: x in within ==> x in chain
    ensures AllVisible(within)
  {
    forall i | 0 <= i < |within| && within[i].Agent? ensures within[i].visible {
      assert within[i] in chain;
    }
  }

  /** When setup is about to run, no agent rule is left. */
  lemma {:induction false} SetupStartsClean(s: Net, c: Commands)
    requires Honest(c) && KeptOrder(s) && AllVisible(s.chain)
    ensures var (before, goesOn, _) := BeforeSetup(s, c);
            AllVisible(before.chain) && (goesOn ==> AgentRules(before.chain) == [])
  {
    CheckRulesReads(s, RULES, c);
    CheckRulesIsExact(s, RULES, c);
    var (s1, r) := Check(s, c);
    var before := BeforeSetup(s, c).0;
    if r == SomeMissing {
      RemoveRemovesAll(s1, RULES, c);
    }
    VisibleWithin(s.chain, before.chain);
    if BeforeSetup(s, c).1 {
      NoAgentRules(before.chain);
    }
  }

  lemma {:induction false} SetupAppendsVisible(s: Net, rules: seq<Rule>, c: Commands)
    requires Honest(c) && AllVisible(s.chain)
    ensures AllVisible(Setup(s, rules, c).0.chain)
    decreases |rules|
  {
    if rules != [] && c.append(s.clock).Works? {
      SetupAppendsVisible(Advance(s, s.chain + [Agent(rules[0], true)]), rules[1..], c);
    }
  }

  // ----- Whole runs -----

  /** An execution by the agent, or an edit by anybody else that leaves the agent's rules alone. */
  datatype Event = Execution(created: bool, c: Commands) | ForeignEdit(chain: Chain)

  function Step(s: Net, e: Event): Net {
    match e
    case Execution(created, c) => Operation(s, created, c).0
    case ForeignEdit(chain) => Advance(s, chain)
  }

  function After(s: Net, events: seq<Event>): Net
    decreases |events|
  {
    if events == [] then s else After(Step(s, events[0]), events[1..])
  }

  ghost predicate FairRun(s: Net, events: seq<Event>)
    decreases |events|
  {
    events == [] ||
    ((match events[0]
      case Execution(_, c) => Honest(c)
      case ForeignEdit(chain) => AllVisible(chain) && AgentRules(chain) == AgentRules(s.chain))
     && FairRun(Step(s, events[0]), events[1..]))
  }

  ghost predicate Sound(s: Net) {
    KeptOrder(s) && AllVisible(s.chain)
  }

  lemma {:induction false} StepKeepsSound(s: Net, e: Event)
    requires Sound(s) && FairRun(s, [e])
    ensures Sound(Step(s, e))
  {
    if e.Execution? && e.created {
      OperationKeepsOrderExactlyWhen(s, e.c);
      SetupStartsClean(s, e.c);
      var (before, goesOn, _) := BeforeSetup(s, e.c);
      if goesOn {
        SetupAppendsVisible(before, RULES, e.c);
      }
    }
  }

  /** In every run, whatever fails and wherever, the agent's rules are a duplicate-free ordered
      subsequence of the three after every single command. */
  lemma {:induction false} RunKeepsOrder(s: Net, events: seq<Event>)
    requires Sound(s) && FairRun(s, events)
    ensures Sound(After(s, events))
    decreases |events|
  {
    if events != [] {
      assert FairRun(Step(s, events[0]), []);
      assert FairRun(s, [events[0]]);
      StepKeepsSound(s, events[0]);
      RunKeepsOrder(Step(s, events[0]), events[1..]);
    }
  }

  /** The execution does not append to a chain that still holds agent rules. */
  ghost predicate AppendsToClean(s: Net, c: Commands) {
    var (before, goesOn, _) := BeforeSetup(s, c);
    !goesOn || AgentRules(before.chain) == [] || c.append(before.clock).Exits?
  }

  ghost predicate ForeignEditsKeepRules(s: Net, events: seq<Event>)
    decreases |events|
  {
    events == [] ||
    ((events[0].ForeignEdit? ==> AgentRules(events[0].chain) == AgentRules(s.chain))
     && ForeignEditsKeepRules(Step(s, events[0]), events[1..]))
  }

  /** In order now and throughout every event. */
  ghost predicate OrderKept(s: Net, events: seq<Event>)
    decreases |events|
  {
    KeptOrder(s) && (events == [] || OrderKept(Step(s, events[0]), events[1..]))
  }

  ghost predicate AlwaysAppendsToClean(s: Net, events: seq<Event>)
    decreases |events|
  {
    events == [] ||
    ((events[0].Execution? && events[0].created ==> AppendsToClean(s, events[0].c))
     && AlwaysAppendsToClean(Step(s, events[0]), events[1..]))
  }

  /** For commands that behave in any way at all: a run keeps the agent's rules in order after every single command
      exactly when no execution appends to a chain that still holds some of them. */
  lemma {:induction false} RunKeepsOrderExactlyWhen(s: Net, events: seq<Event>)
    requires KeptOrder(s) && ForeignEditsKeepRules(s, events)
    ensures OrderKept(s, events) <==> AlwaysAppendsToClean(s, events)
    decreases |events|
  {
    if events != [] {
      var e := events[0];
      if e.Execution? && e.created {
        OperationKeepsOrderExactlyWhen(s, e.c);
      }
      if KeptOrder(Step(s, e)) {
        RunKeepsOrderExactlyWhen(Step(s, e), events[1..]);
      }
    }
  }

  /** Hence a check that reports success, which never looks at the order, implies that the three
      rules are there in the right order. */
  lemma {:induction false} CheckSuccessMeansRightOrder(s: Net, c: Commands)
    requires Sound(s) && HonestChecks(c) && Check(s, c).1 == AllPresent
    ensures AgentRules(s.chain) == RULES
  {
    CheckRulesIsExact(s, RULES, c);
    assert forall r :: r in RULES ==> Agent(r, true) in s.chain;
    assert AcceptDns in RULES && Accept in RULES && Drop in RULES;
    RulesOfVisibleChain(s.chain, AcceptDns);
    RulesOfVisibleChain(s.chain, Accept);
    RulesOfVisibleChain(s.chain, Drop);
    OrderedAndComplete(AgentRules(s.chain));
  }

  // ----- Deletes that fail quietly -----

  // The guarantee needs deletes that work or exit with 2. Code 1, "no such rule", ends the delete loop quietly while
  // the rule is there, any other code goes on until the tries are used up, and setup appends a second copy.

  /** Deletes do nothing and never raise. */
  ghost predicate StuckDeletes(c: Commands) {
    forall k :: c.delete(k).Exits? && c.delete(k).code != 2
  }

  lemma {:induction false} StuckDeleteLeavesAll(s: Net, rule: Rule, tries: nat, c: Commands)
    requires StuckDeletes(c)
    ensures DeleteRule(s, rule, tries, c).1 && DeleteRule(s, rule, tries, c).0.chain == s.chain
    decreases tries
  {
    if tries > 0 {
      StuckDeleteLeavesAll(Advance(s, s.chain), rule, tries - 1, c);
    }
  }

  lemma {:induction false} StuckRemoveLeavesAll(s: Net, rules: seq<Rule>, c: Commands)
    requires StuckDeletes(c) && forall k :: c.check(k) == Works
    ensures Remove(s, rules, c).1 && Remove(s, rules, c).0.chain == s.chain
    decreases |rules|
  {
    if rules != [] {
      StuckDeleteLeavesAll(Advance(s, s.chain), rules[0], DELETE_TRIES, c);
      StuckRemoveLeavesAll(RemoveOne(s, rules[0], c).0, rules[1..], c);
    }
  }

  lemma {:induction false} SomeMissingIsSeen(s: Net, c: Commands, there: Rule, gone: Rule)
    requires AllVisible(s.chain) && Agent(there, true) in s.chain && Agent(gone, true) !in s.chain
    requires forall k :: c.check(k) == Works && c.list(k) == Works
    ensures Check(s, c).1 == SomeMissing && Check(s, c).0.chain == s.chain
  {
    CheckRulesIsExact(s, RULES, c);
    CheckRulesReads(s, RULES, c);
    EveryRuleListed(there);
    EveryRuleListed(gone);
    var (missing, existing) := CheckRules(s, RULES, c).1.value;
    assert gone in missing && there in existing;
    forall i | 0 <= i < |missing|
      ensures !Listed(s.chain, missing[i])
    {
      assert missing[i] in missing;
    }
  }

  /** With some but not all of the rules in place and every delete stuck, an execution breaks the order. */
  lemma {:induction false} StuckDeleteBreaksOrder(s: Net, c: Commands, there: Rule, gone: Rule)
    requires Sound(s) && Agent(there, true) in s.chain && Agent(gone, true) !in s.chain && StuckDeletes(c)
    requires forall k :: c.check(k) == Works && c.list(k) == Works && c.append(k) == Works
    ensures !KeptOrder(Operation(s, true, c).0)
  {
    SomeMissingIsSeen(s, c, there, gone);
    StuckRemoveLeavesAll(Check(s, c).0, RULES, c);
    RulesOfVisibleChain(s.chain, there);
    OperationKeepsOrderExactlyWhen(s, c);
  }

  /** Checks do not lie, appended rules are visible, and deletes behave in the given ways only. */
  ghost predicate DeletesWithin(c: Commands, effects: iset<Effect>) {
    HonestChecks(c) && (forall k :: c.delete(k) in effects) && forall k :: c.appendsVisible(k)
  }

  ghost predicate RunWithin(s: Net, events: seq<Event>, effects: iset<Effect>)
    decreases |events|
  {
    events == [] ||
    ((match events[0]
      case Execution(_, c) => DeletesWithin(c, effects)
      case ForeignEdit(chain) => AllVisible(chain) && AgentRules(chain) == AgentRules(s.chain))
     && RunWithin(Step(s, events[0]), events[1..], effects))
  }

  ghost predicate RaiseOrWork(effects: iset<Effect>) {
    forall e :: e in effects && e.Exits? ==> e.code == 2
  }

  lemma {:induction false} RunWithinIsFair(s: Net, events: seq<Event>, effects: iset<Effect>)
    requires RunWithin(s, events, effects) && RaiseOrWork(effects)
    ensures FairRun(s, events)
    decreases |events|
  {
    if events != [] {
      RunWithinIsFair(Step(s, events[0]), events[1..], effects);
    }
  }

  lemma {:induction false} ChecksCount(s: Net, rules: seq<Rule>, c: Commands)
    requires forall k :: c.check(k) == Works
    ensures CheckRules(s, rules, c).0.clock == s.clock + |rules|
    decreases |rules|
  {
    if rules != [] {
      ChecksCount(Advance(s, s.chain), rules[1..], c);
    }
  }

  /** Everything works but the deletes, which all do the same, and the appends. */
  function Failing(e: Effect, append: nat -> Effect): Commands {
    Commands(k => Works, k => e, k => Works, append, k => true)
  }

  /** Appends work before the given moment only. */
  function WorksBefore(clock: nat): nat -> Effect {
    k => if k < clock then Works else Exits(3)
  }

  lemma {:induction false} NothingIsThere(s: Net, c: Commands)
    requires AllVisible(s.chain) && AgentRules(s.chain) == [] && forall k :: c.check(k) == Works
    ensures Check(s, c).1 == NonePresent && Check(s, c).0 == CheckRules(s, RULES, c).0
  {
    CheckRulesIsExact(s, RULES, c);
    var (missing, existing) := CheckRules(s, RULES, c).1.value;
    EveryRuleListed(Drop);
    RulesOfVisibleChain(s.chain, Drop);
    assert Drop in missing;
    if existing != [] {
      RulesOfVisibleChain(s.chain, existing[0]);
      assert false;
    }
  }

  /** A setup that is cut off after its first append. */
  lemma {:induction false} CutOffSetup(s: Net, e: Effect)
    requires Sound(s) && AgentRules(s.chain) == []
    ensures var next := Step(s, Execution(true, Failing(e, WorksBefore(s.clock + 4))));
            Sound(next) && next.chain == s.chain + [Agent(AcceptDns, true)]
  {
    var c := Failing(e, WorksBefore(s.clock + 4));
    NothingIsThere(s, c);
    ChecksCount(s, RULES, c);
    CheckRulesReads(s, RULES, c);
    OperationKeepsOrderExactlyWhen(s, c);
    var s1 := CheckRules(s, RULES, c).0;
    var s2 := Advance(s1, s.chain + [Agent(AcceptDns, true)]);
    assert RULES[0] == AcceptDns && RULES[1..] != [];
    assert Setup(s2, RULES[1..], c).0 == Advance(s2, s2.chain);
  }

  lemma {:induction false} TwoExecutions(s: Net, first: Commands, second: Commands, effects: iset<Effect>)
    requires DeletesWithin(first, effects) && DeletesWithin(second, effects)
    ensures var events := [Execution(true, first), Execution(true, second)];
            && RunWithin(s, events, effects)
            && After(s, events) == Operation(Operation(s, true, first).0, true, second).0
  {
    var events := [Execution(true, first), Execution(true, second)];
    assert events[1..] == [events[1]] && events[1..][1..] == [];
    var last := Step(Step(s, events[0]), events[1]);
    assert RunWithin(last, [], effects) && After(last, []) == last;
    assert RunWithin(Step(s, events[0]), events[1..], effects);
  }

  lemma {:induction false} FailingIsWithin(e: Effect, append: nat -> Effect)
    ensures DeletesWithin(Failing(e, append), iset{e})
  {
  }

  /** Once the first rule is in place alone, deletes that are stuck break the order. */
  lemma {:induction false} StuckRunBreaksOrder(s: Net, e: Effect) returns (events: seq<Event>)
    requires Sound(s) && AgentRules(s.chain) == [] && e.Exits? && e.code != 2
    ensures RunWithin(s, events, iset{e}) && !KeptOrder(After(s, events))
  {
    var first, second := Failing(e, WorksBefore(s.clock + 4)), Failing(e, k => Works);
    CutOffSetup(s, e);
    var next := Operation(s, true, first).0;
    FirstRuleAlone(s.chain, next.chain);
    StuckDeleteBreaksOrder(next, second, AcceptDns, Accept);
    FailingIsWithin(e, WorksBefore(s.clock + 4));
    FailingIsWithin(e, k => Works);
    TwoExecutions(s, first, second, iset{e});
    events := [Execution(true, first), Execution(true, second)];
  }

  lemma {:induction false} FirstRuleAlone(chain: Chain, next: Chain)
    requires AllVisible(chain) && AgentRules(chain) == [] && next == chain + [Agent(AcceptDns, true)]
    ensures Agent(AcceptDns, true) in next && Agent(Accept, true) !in next
  {
    RulesOfVisibleChain(chain, Accept);
    assert next[|chain|] == Agent(AcceptDns, true);
  }

  lemma {:induction false} WithinMore(s: Net, events: seq<Event>, some: iset<Effect>, more: iset<Effect>)
    requires RunWithin(s, events, some) && some <= more
    ensures RunWithin(s, events, more)
    decreases |events|
  {
    if events != [] {
      WithinMore(Step(s, events[0]), events[1..], some, more);
    }
  }

  /** The order is kept in every run from a chain without agent rules, whatever the appends do, exactly when deletes
      that fail exit with 2. */
  lemma {:induction false} OrderHoldsExactlyWhen(s: Net, effects: iset<Effect>)
    requires Sound(s) && AgentRules(s.chain) == []
    ensures (forall events :: RunWithin(s, events, effects) ==> KeptOrder(After(s, events))) <==> RaiseOrWork(effects)
  {
    if RaiseOrWork(effects) {
      forall events | RunWithin(s, events, effects) ensures KeptOrder(After(s, events)) {
        RunWithinIsFair(s, events, effects);
        RunKeepsOrder(s, events);
      }
    } else {
      var e :| e in effects && e.Exits? && e.code != 2;
      var events := StuckRunBreaksOrder(s, e);
      WithinMore(s, events, iset{e}, effects);
    }
  }
}
