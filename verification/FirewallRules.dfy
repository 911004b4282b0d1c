/** The agent's rules in the OUTPUT chain and the iptables commands that edit them. Any command
    may fail, in any way, at any time; what each one does is given by `Commands`. */
module FirewallRules {
  import opened Common

  datatype Rule = AcceptDns | Accept | Drop

  /** The order in which the rules are checked, removed and appended. */
  const RULES: seq<Rule> := [AcceptDns, Accept, Drop]

  /** An entry of the chain. A rule created too early in the boot can be invisible to -C and -D. */
  datatype Entry = Agent(rule: Rule, visible: bool) | Foreign(id: int)

  type Chain = seq<Entry>

  /** A command does its work, or exits with a code and changes nothing. */
  datatype Effect = Works | Exits(code: int)

  /** What the k-th command does, by kind; an append also says if the new rule is visible. */
  datatype Commands = Commands(check: nat -> Effect, delete: nat -> Effect, list: nat -> Effect,
                               append: nat -> Effect, appendsVisible: nat -> bool)

  /** The chain, the number of commands run, and the chain after each of them. */
  datatype Net = Net(chain: Chain, clock: nat, past: seq<Chain>)

  function Advance(s: Net, chain: Chain): Net {
    Net(chain, s.clock + 1, s.past + [chain])
  }

  const DELETE_TRIES: nat := 99

  // ----- Single commands -----

  function WithoutFirst(chain: Chain, e: Entry): Chain {
    if chain == [] then [] else if chain[0] == e then chain[1..] else [chain[0]] + WithoutFirst(chain[1..], e)
  }

  function CheckCode(chain: Chain, rule: Rule, e: Effect): int {
    match e
    case Works => if Agent(rule, true) in chain then 0 else 1
    case Exits(code) => code
  }

  function DeleteCommand(chain: Chain, rule: Rule, e: Effect): (Chain, int) {
    match e
    case Works => if Agent(rule, true) in chain then (WithoutFirst(chain, Agent(rule, true)), 0) else (chain, 1)
    case Exits(code) => (chain, code)
  }

  predicate Listed(chain: Chain, rule: Rule) {
    Agent(rule, true) in chain || Agent(rule, false) in chain
  }

  // ----- check, remove and setup -----

  /** Which of the given rules -C reports as missing and as existing; None if a check raises. */
  function CheckRules(s: Net, rules: seq<Rule>, c: Commands): (Net, Option<(seq<Rule>, seq<Rule>)>)
    decreases |rules|
  {
    if rules == [] then (s, Some(([], [])))
    else
      var code := CheckCode(s.chain, rules[0], c.check(s.clock));
      var s1 := Advance(s, s.chain);
      if code != 0 && code != 1 then (s1, None)
      else
        var (s2, rest) := CheckRules(s1, rules[1..], c);
        (s2, if rest.None? then None
             else if code == 0 then Some((rest.value.0, [rules[0]] + rest.value.1))
             else Some(([rules[0]] + rest.value.0, rest.value.1)))
  }

  datatype CheckResult = AllPresent | NonePresent | SomeMissing | Inconsistent | CheckRaises

  /** IpTables.check: when only some rules are found, the listing decides whether -C can be trusted. */
  function Check(s: Net, c: Commands): (Net, CheckResult) {
    var (s1, found) := CheckRules(s, RULES, c);
    if found.None? then (s1, CheckRaises)
    else
      var (missing, existing) := found.value;
      if missing == [] then (s1, AllPresent)
      else if existing == [] then (s1, NonePresent)
      else
        var s2 := Advance(s1, s1.chain);
        if c.list(s1.clock).Exits? then (s2, CheckRaises)
        else if exists i :: 0 <= i < |missing| && Listed(s1.chain, missing[i]) then (s2, Inconsistent)
        else (s2, SomeMissing)
  }

  /** Deletes instances of a rule until exit code 1; code 2 raises; any other code just goes on. */
  function DeleteRule(s: Net, rule: Rule, tries: nat, c: Commands): (Net, bool)
    decreases tries
  {
    if tries == 0 then (s, true)
    else
      var (chain, code) := DeleteCommand(s.chain, rule, c.delete(s.clock));
      var s1 := Advance(s, chain);
      if code == 1 then (s1, true)
      else if code == 2 then (s1, false)
      else DeleteRule(s1, rule, tries - 1, c)
  }

  /** Checks for a rule and, if it is there, deletes its instances. */
  function RemoveOne(s: Net, rule: Rule, c: Commands): (Net, bool) {
    var code := CheckCode(s.chain, rule, c.check(s.clock));
    var s1 := Advance(s, s.chain);
    if code != 0 && code != 1 then (s1, false)
    else if code == 0 then DeleteRule(s1, rule, DELETE_TRIES, c)
    else (s1, true)
  }

  function Remove(s: Net, rules: seq<Rule>, c: Commands): (Net, bool)
    decreases |rules|
  {
    if rules == [] then (s, true)
    else
      var (s1, ok) := RemoveOne(s, rules[0], c);
      if !ok then (s1, false) else Remove(s1, rules[1..], c)
  }

  function Setup(s: Net, rules: seq<Rule>, c: Commands): (Net, bool)
    decreases |rules|
  {
    if rules == [] then (s, true)
    else if c.append(s.clock).Exits? then (Advance(s, s.chain), false)
    else Setup(Advance(s, s.chain + [Agent(rules[0], c.appendsVisible(s.clock))]), rules[1..], c)
  }

  // ----- One execution of EnableFirewall -----

  datatype FirewallState = OK | NotSet | Invalid | InconsistentState | Unknown

  /** The chain when setup is about to run, if this execution gets that far, and the states
      recorded on the way. */
  function BeforeSetup(s: Net, c: Commands): (Net, bool, seq<FirewallState>) {
    var (s1, r) := Check(s, c);
    match r
    case AllPresent => (s1, false, [OK])
    case Inconsistent => (s1, false, [InconsistentState])
    case CheckRaises => (s1, false, [Unknown])
    case NonePresent => (s1, true, [NotSet])
    case SomeMissing =>
      var (s2, ok) := Remove(s1, RULES, c);
      (s2, ok, if ok then [Invalid] else [Invalid, Unknown])
  }

  /** EnableFirewall._operation: the new chain and the sequence of states it went through;
      `created` is false when no firewall manager can be had. */
  function Operation(s: Net, created: bool, c: Commands): (Net, seq<FirewallState>) {
    if !created then (s, [Unknown])
    else
      var (s1, goesOn, states) := BeforeSetup(s, c);
      if !goesOn then (s1, states)
      else
        var (s2, ok) := Setup(s1, RULES, c);
        (s2, states + [if ok then OK else Unknown])
  }
}
