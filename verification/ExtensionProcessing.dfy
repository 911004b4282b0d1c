/** The processing loop over the extensions of a goal state: ordering by dependency level, and
    stopping at the first dependency that fails or does not report success. */
module ExtensionProcessing {
  import opened Common
  import opened Sorting

  datatype HandlerRequest = EnableHandler | DisableHandler | UninstallHandler

  /** The settings of one extension: its dependency level and whether it is to be enabled. */
  datatype Settings = Settings(name: string, level: int, enabled: bool)

  datatype HandlerGoal = HandlerGoal(name: string, request: HandlerRequest, settings: seq<Settings>)

  /** One unit of work; a handler without settings is still processed once. */
  datatype Item = Item(settings: Option<Settings>, handler: HandlerGoal)

  // ----- Ordering -----

  predicate IsEnable(item: Item) {
    item.handler.request == EnableHandler && (item.settings.Some? ==> item.settings.value.enabled)
  }

  function Level(item: Item): int {
    if item.settings.Some? then item.settings.value.level else 0
  }

  /** The sort key: everything that is not an enable comes first, in reverse order of level. */
  function Key(item: Item): int {
    if IsEnable(item) then Level(item) else -Level(item) - 1
  }

  function ItemsOf(h: HandlerGoal, settings: seq<Settings>): seq<Item> {
    if settings == [] then [] else [Item(Some(settings[0]), h)] + ItemsOf(h, settings[1..])
  }

  function AllItems(handlers: seq<HandlerGoal>): seq<Item> {
    if handlers == [] then []
    else
      (if handlers[0].settings == [] then [Item(None, handlers[0])] else ItemsOf(handlers[0], handlers[0].settings))
      + AllItems(handlers[1..])
  }

  /** With levels that are not negative, whatever disables or uninstalls comes before every enable,
      enables go up the levels and the others down. */
  lemma {:induction false} OrderOfProcessing(items: seq<Item>, i: nat, j: nat)
    requires Ascending(Key, items) && i < j < |items| && Level(items[i]) >= 0 && Level(items[j]) >= 0
    ensures IsEnable(items[i]) ==> IsEnable(items[j]) && Level(items[i]) <= Level(items[j])
    ensures !IsEnable(items[j]) ==> !IsEnable(items[i]) && Level(items[i]) >= Level(items[j])
  {
    assert Key(items[i]) <= Key(items[j]);
  }

  // ----- Waiting for a dependency -----

  datatype Status = Transitioning | Warning | Error | SuccessStatus

  /** What one look at the extension's status gives before the deadline; None means no status applies. */
  datatype Poll = PollRaises | Saw(status: Option<Status>)

  /** Terminal success was seen, and nothing before it was terminal or raised. */
  ghost predicate SawSuccess(polls: seq<Poll>) {
    exists k :: 0 <= k < |polls| && polls[k] == Saw(Some(SuccessStatus))
      && forall j :: 0 <= j < k ==> polls[j] == Saw(Some(Transitioning)) || polls[j] == Saw(Some(Warning))
  }

  /** wait_for_handler_completion: the polls made before the deadline, if the item has settings. */
  method WaitForCompletion(hasSettings: bool, polls: seq<Poll>) returns (ok: bool)
    ensures ok <==> !hasSettings || SawSuccess(polls)
  {
    if !hasSettings {
      return true;
    }
    var completed, status := false, None;
    var i := 0;
    while i < |polls| && !completed
      invariant 0 <= i <= |polls|
      invariant completed ==> i > 0 && polls[i - 1] == Saw(status)
                              && status in {None, Some(Error), Some(SuccessStatus)}
      invariant !completed ==> status in {None, Some(Transitioning), Some(Warning)}
      invariant forall j :: 0 <= j < (if completed then i - 1 else i) ==>
                  polls[j] == Saw(Some(Transitioning)) || polls[j] == Saw(Some(Warning))
      decreases |polls| - i
    {
      match polls[i]
      case PollRaises => return false;
      case Saw(s) =>
        status := s;
        completed := s.None? || s.value == Error || s.value == SuccessStatus;
        i := i + 1;
    }
    if !completed {
      return false;
    }
    return status == Some(SuccessStatus);
  }

  // ----- The loop -----

  /** What happens to one item: success of its commands, and what polling shows. */
  datatype Outcome = Outcome(success: bool, polls: seq<Poll>)

  datatype Disposition = Disallowed | SkippedAfterFailure | Processed(success: bool)

  /** The item succeeded and, if it has settings, was observed with status success. */
  ghost predicate Fulfilled(item: Item, o: Outcome) {
    o.success && (item.settings.Some? ==> SawSuccess(o.polls))
  }

  predicate IsDependency(item: Item, max: int) {
    0 <= Key(item) < max
  }

  /** The first n items were processed and the others up to i skipped; every dependency among the first n
      is fulfilled, except that after a failure the last one is a dependency that is not. */
  ghost predicate ProcessedSoFar(order: seq<Item>, result: seq<Disposition>, n: nat, failed: bool,
                                 oracle: nat -> Outcome, max: int)
    requires |result| <= |order|
  {
    && n <= |result| && (!failed ==> n == |result|)
    && (forall i :: 0 <= i < n ==> result[i] == Processed(oracle(i).success))
    && (forall i :: n <= i < |result| ==> result[i] == SkippedAfterFailure)
    && (forall i :: 0 <= i < (if failed then n - 1 else n) && IsDependency(order[i], max) ==>
        Fulfilled(order[i], oracle(i)))
    && (failed ==> n > 0 && IsDependency(order[n - 1], max) && !Fulfilled(order[n - 1], oracle(n - 1)))
  }

  /** Processes one item and waits for it if others depend on it. */
  method ProcessItem(item: Item, max: int, o: Outcome) returns (failed: bool)
    ensures failed <==> IsDependency(item, max) && !Fulfilled(item, o)
  {
    failed := false;
    if 0 <= Key(item) < max {
      if !o.success {
        failed := true;
      } else {
        var ok := WaitForCompletion(item.settings.Some?, o.polls);
        failed := !ok;
      }
    }
  }

  /** The loop over the ordered items. */
  method ProcessInOrder(order: seq<Item>, enabled: bool, policyBlocks: bool, oracle: nat -> Outcome)
    returns (result: seq<Disposition>, n: nat, failed: bool)
    ensures |result| == |order|
    ensures !enabled || policyBlocks ==> forall i :: 0 <= i < |order| ==> result[i] == Disallowed
    ensures enabled && !policyBlocks ==> ProcessedSoFar(order, result, n, failed, oracle, MaxKey(order))
  {
    result, n, failed := [], 0, false;
    var max := MaxKey(order);
    for i := 0 to |order|
      invariant |result| == i
      invariant !enabled || policyBlocks ==> forall j :: 0 <= j < i ==> result[j] == Disallowed
      invariant enabled && !policyBlocks ==> ProcessedSoFar(order, result, n, failed, oracle, max)
    {
      if !enabled {
        result := result + [Disallowed];
      } else if policyBlocks {
        result := result + [Disallowed];
      } else if failed {
        result := result + [SkippedAfterFailure];
      } else {
        var o := oracle(i);
        failed := ProcessItem(order[i], max, o);
        result := result + [Processed(o.success)];
        n := i + 1;
      }
    }
  }

  /** handle_ext_handlers. The items are taken in order. With processing disabled or policy in error all
      are turned down; otherwise the processed items are a prefix that ends early exactly at a dependency
      that fails or is not seen to succeed. */
  method HandleExtHandlers(handlers: seq<HandlerGoal>, enabled: bool, policyBlocks: bool, oracle: nat -> Outcome)
    returns (order: seq<Item>, result: seq<Disposition>, n: nat, failed: bool)
    ensures Ascending(Key, order) && forall k :: WithKey(Key, order, k) == WithKey(Key, AllItems(handlers), k)
    ensures |result| == |order|
    ensures !enabled || policyBlocks ==> forall i :: 0 <= i < |order| ==> result[i] == Disallowed
    ensures enabled && !policyBlocks ==> ProcessedSoFar(order, result, n, failed, oracle, MaxKey(order))
  {
    var items := AllItems(handlers);
    order := Sort(Key, items);
    SortIsSound(Key, items, 0);
    forall k ensures WithKey(Key, order, k) == WithKey(Key, items, k) {
      SortIsStable(Key, items, k);
    }
    result, n, failed := ProcessInOrder(order, enabled, policyBlocks, oracle);
  }

  function MaxKey(order: seq<Item>): int {
    if order == [] then 0 else Key(order[|order| - 1])
  }

  /** Nothing at a positive level runs unless everything at the levels from 0 up to it was processed,
      succeeded and was seen to succeed. */
  lemma {:induction false} DependenciesComeFirst(order: seq<Item>, result: seq<Disposition>, n: nat, failed: bool,
                                                 oracle: nat -> Outcome, i: nat, j: nat)
    requires Ascending(Key, order) && |result| == |order|
    requires ProcessedSoFar(order, result, n, failed, oracle, MaxKey(order))
    requires i < |order| && j < |order| && result[j].Processed? && 0 <= Key(order[i]) < Key(order[j])
    ensures i < j && result[i] == Processed(true) && Fulfilled(order[i], oracle(i))
  {
    assert j < |order| - 1 ==> Key(order[j]) <= Key(order[|order| - 1]);
    assert IsDependency(order[i], MaxKey(order));
  }
}
