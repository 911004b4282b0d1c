/** What the restart guard keeps over every run, and which versions pruning keeps. */
module RestartTheorems {
  import opened Common
  import opened RestartHistory
  import opened Sorting

  ghost predicate Distinct(versions: seq<Record>) {
    forall i, j :: 0 <= i < j < |versions| ==> versions[i].version != versions[j].version
  }

  ghost predicate Retained(versions: seq<Record>, version: string) {
    exists i :: 0 <= i < |versions| && versions[i].version == version
  }

  // ----- Pruning -----

  /** Pruning keeps a version exactly when fewer than three rank ahead of it. */
  lemma {:induction false} PrunedKeepsExactly(versions: seq<Record>, i: nat)
    requires Distinct(versions) && i < |versions| && Parseable(versions)
    ensures Retained(Pruned(versions), versions[i].version) <==> Ahead(Age, versions, i) < MAX_VERSIONS_RETAINED
  {
    PlaceIsAhead(Age, versions, i);
    var pruned := Pruned(versions);
    if |versions| <= MAX_VERSIONS_RETAINED {
      assert pruned[i] == versions[i];
    } else if Ahead(Age, versions, i) < MAX_VERSIONS_RETAINED {
      assert pruned[Ahead(Age, versions, i)] == versions[i];
    } else if Retained(pruned, versions[i].version) {
      var k :| 0 <= k < |pruned| && pruned[k].version == versions[i].version;
      var j := EveryPlaceIsTaken(Age, versions, k);
      PlaceIsAhead(Age, versions, j);
      assert false;
    }
  }

  /** What pruning keeps it keeps unchanged, and no version twice. */
  lemma {:induction false} PrunedIsPart(versions: seq<Record>)
    requires Distinct(versions)
    ensures Distinct(Pruned(versions)) && forall k :: 0 <= k < |Pruned(versions)| ==> Pruned(versions)[k] in versions
    ensures Parseable(versions) ==> |Pruned(versions)| <= MAX_VERSIONS_RETAINED
  {
    var pruned := Pruned(versions);
    if pruned != versions {
      forall k | 0 <= k < |pruned|
        ensures pruned[k] in versions
      {
        var j := EveryPlaceIsTaken(Age, versions, k);
        PlaceIsAhead(Age, versions, j);
      }
      forall k, l | 0 <= k < l < |pruned|
        ensures pruned[k].version != pruned[l].version
      {
        var i := EveryPlaceIsTaken(Age, versions, k);
        var j := EveryPlaceIsTaken(Age, versions, l);
        PlaceIsAhead(Age, versions, i);
        PlaceIsAhead(Age, versions, j);
      }
    }
  }

  lemma {:induction false} EntriesAt(versions: seq<Record>, i: nat)
    requires Distinct(versions) && i < |versions|
    ensures EntriesOf(versions, versions[i].version) == versions[i].entries
    decreases i
  {
    if i > 0 {
      EntriesAt(versions[1..], i - 1);
    }
  }

  lemma {:induction false} EntriesOfMissing(versions: seq<Record>, version: string)
    requires !Retained(versions, version)
    ensures EntriesOf(versions, version) == []
  {
    if versions != [] {
      assert versions[0].version != version;
      assert forall i :: 0 <= i < |versions[1..]| ==> versions[1..][i] == versions[i + 1];
      EntriesOfMissing(versions[1..], version);
    }
  }

  // ----- Recording -----

  /** Where the new entry goes: to the version's record, or to a new record at the end. */
  lemma {:induction false} AppendPlace(versions: seq<Record>, version: string, e: Entry) returns (p: nat)
    requires Distinct(versions)
    ensures p <= |versions|
    ensures p < |versions| ==>
              && versions[p].version == version
              && Append(versions, version, e) == versions[p := Record(version, versions[p].entries + [e])]
    ensures p == |versions| ==>
                !Retained(versions, version) && Append(versions, version, e) == versions + [Record(version, [e])]
  {
    if versions == [] || versions[0].version == version {
      p := 0;
    } else {
      var q := AppendPlace(versions[1..], version, e);
      p := q + 1;
      assert versions == [versions[0]] + versions[1..];
    }
  }

  ghost predicate Spaced(entries: seq<Entry>, interval: int) {
    && (forall i :: 0 <= i < |entries| ==> entries[i].time.Some?)
    && (forall i, j :: 0 <= i < j < |entries| ==> entries[j].time.value >= entries[i].time.value + interval)
  }

  /** At most the allowed number of restarts for each version, each the interval after all earlier ones. */
  ghost predicate Guarded(versions: seq<Record>, max: int, interval: int) {
    Distinct(versions) && forall i :: 0 <= i < |versions| ==> GuardedRecord(versions[i], max, interval)
  }

  ghost predicate GuardedRecord(r: Record, max: int, interval: int) {
    |r.entries| <= max && Spaced(r.entries, interval)
  }

  lemma {:induction false} LatestBounds(entries: seq<Entry>)
    ensures Latest(entries).Some? <==> forall i :: 0 <= i < |entries| ==> entries[i].time.Some?
    ensures Latest(entries).Some? ==> forall i :: 0 <= i < |entries| ==> entries[i].time.value <= Latest(entries).value
    ensures Latest(entries).Some? && entries != [] ==>
                exists i :: 0 <= i < |entries| && entries[i].time == Latest(entries)
  {
    if entries != [] {
      var init := entries[..|entries| - 1];
      LatestBounds(init);
      assert forall i :: 0 <= i < |init| ==> init[i] == entries[i];
      if Latest(entries).Some? {
        if Latest(entries) != entries[|entries| - 1].time {
          var i :| 0 <= i < |init| && init[i].time == Latest(init);
          assert entries[i].time == Latest(entries);
        }
      }
    }
  }

  /** An allowed restart keeps the spacing and the limit, if it is recorded no earlier than checked or is the only
      one. */
  lemma {:induction false} AllowedKeepsGuarded(entries: seq<Entry>, version: string, max: int, interval: int, b: Breach)
    requires GuardedRecord(Record(version, entries), max, interval)
    requires (max <= 1 || (interval > 0 && b.checked <= b.recorded))
    requires CanRestart(entries, max, interval, b.checked) == Ok(true)
    ensures GuardedRecord(Record(version, entries + [Entry(Some(b.recorded), b.anonBytes)]), max, interval)
  {
    LatestBounds(entries);
  }

  lemma {:induction false} AppendKeepsGuarded(versions: seq<Record>, max: int, interval: int, version: string, e: Entry)
    requires Guarded(versions, max, interval)
    requires GuardedRecord(Record(version, EntriesOf(versions, version) + [e]), max, interval)
    ensures Guarded(Append(versions, version, e), max, interval)
  {
    var p := AppendPlace(versions, version, e);
    if p < |versions| {
      EntriesAt(versions, p);
    } else {
      EntriesOfMissing(versions, version);
      assert [] + [e] == [e];
    }
  }

  lemma {:induction false} PrunedKeepsGuarded(versions: seq<Record>, max: int, interval: int)
    requires Guarded(versions, max, interval)
    ensures Guarded(Pruned(versions), max, interval)
  {
    PrunedIsPart(versions);
  }

  lemma {:induction false} EntriesAreGuarded(versions: seq<Record>, max: int, interval: int, version: string)
    requires Guarded(versions, max, interval)
    ensures Retained(versions, version) ==> GuardedRecord(Record(version, EntriesOf(versions, version)), max, interval)
    ensures !Retained(versions, version) ==> EntriesOf(versions, version) == []
  {
    if Retained(versions, version) {
      var i :| 0 <= i < |versions| && versions[i].version == version;
      EntriesAt(versions, i);
    } else {
      EntriesOfMissing(versions, version);
    }
  }

  lemma {:induction false} HandleKeepsGuarded(file: File, max: int, interval: int, b: Breach)
    requires Guarded(Loaded(file), max, interval) && (max <= 1 || (interval > 0 && b.checked <= b.recorded))
    ensures Guarded(Loaded(Handle(file, max, interval, b).0), max, interval)
  {
    if Handle(file, max, interval, b).1 {
      var versions, e := Loaded(file), Entry(Some(b.recorded), b.anonBytes);
      EntriesAreGuarded(versions, max, interval, b.version);
      AllowedKeepsGuarded(EntriesOf(versions, b.version), b.version, max, interval, b);
      AppendKeepsGuarded(versions, max, interval, b.version, e);
      PrunedKeepsGuarded(Append(versions, b.version, e), max, interval);
    }
  }

  ghost predicate ClockHolds(breaches: seq<Breach>) {
    forall i :: 0 <= i < |breaches| ==> breaches[i].checked <= breaches[i].recorded
  }

  /** In every run of guarded restarts, whatever the clock does between one and the next. */
  lemma {:induction false} RunKeepsGuarded(file: File, max: int, interval: int, breaches: seq<Breach>)
    requires Guarded(Loaded(file), max, interval) && (max <= 1 || (interval > 0 && ClockHolds(breaches)))
    ensures Guarded(Loaded(FileAfter(file, max, interval, breaches)), max, interval)
    decreases |breaches|
  {
    if breaches != [] {
      HandleKeepsGuarded(file, max, interval, breaches[0]);
      RunKeepsGuarded(Handle(file, max, interval, breaches[0]).0, max, interval, breaches[1..]);
    }
  }

  lemma {:induction false} NoneAhead(versions: seq<Record>, i: nat)
    requires i < |versions|
    requires forall j :: 0 <= j < |versions| && j != i ==> Recency(versions[j]) < Recency(versions[i])
    ensures Ahead(Age, versions, i) == 0
    decreases i
  {
    if i == 0 {
      NoneSmaller(Age, versions[1..], Age(versions[0]));
    } else {
      NoneAhead(versions[1..], i - 1);
    }
  }

  lemma {:induction false} LastIsRecent(r: Record)
    requires r.entries != [] && Latest(r.entries).Some?
    ensures r.entries[|r.entries| - 1].time.Some? && r.entries[|r.entries| - 1].time.value <= Recency(r)
  {
    LatestBounds(r.entries);
  }

  /** A restart recorded later than the last one of every other version is kept. */
  lemma {:induction false} LatestRestartIsKept(versions: seq<Record>, b: Breach)
    requires Distinct(versions)
    requires forall i :: 0 <= i < |versions| && versions[i].version != b.version ==> Recency(versions[i]) < b.recorded
    ensures Retained(Pruned(Append(versions, b.version, Entry(Some(b.recorded), b.anonBytes))), b.version)
  {
    var e := Entry(Some(b.recorded), b.anonBytes);
    var p := AppendPlace(versions, b.version, e);
    var appended := Append(versions, b.version, e);
    assert appended[p].version == b.version;
    if Parseable(appended) {
      LastIsRecent(appended[p]);
      NoneAhead(appended, p);
      PrunedKeepsExactly(appended, p);
    }
  }

  // ----- When the guard works -----

  lemma {:induction false} SingleRecency(version: string, e: Entry)
    requires e.time.Some?
    ensures Latest([e]) == e.time && Recency(Record(version, [e])) == e.time.value
  {
    assert [e][..0] == [];
    assert Latest([]) == Some(NEVER);
  }

  /** Two restarts, the second after the clock was set back. */
  function ClockSetBack(version: string, interval: int): seq<Breach>
    requires interval <= 0
  {
    [Breach(version, 1 - interval, 1 - interval, 0, true, true), Breach(version, 0, 0, 0, true, true)]
  }

  /** Without a positive interval a clock set back is not refused, and restarts are recorded out of order. */
  lemma {:induction false} NoIntervalNoOrder(version: string, max: int, interval: int)
    requires interval <= 0 && max >= 2
    ensures !Guarded(Loaded(FileAfter(Missing, max, interval, ClockSetBack(version, interval))), max, interval)
  {
    var breaches := ClockSetBack(version, interval);
    var first, second := Entry(Some(1 - interval), 0), Entry(Some(0), 0);
    var once, twice := Current([Record(version, [first])]), Current([Record(version, [first, second])]);
    assert Handle(Missing, max, interval, breaches[0]) == (once, true);
    SingleRecency(version, first);
    assert EntriesOf(Loaded(once), version) == [first];
    assert CanRestart([first], max, interval, 0) == Ok(true);
    assert [first] + [second] == [first, second];
    assert Append(once.versions, version, second) == twice.versions;
    assert breaches[1] == Breach(version, 0, 0, 0, true, true);
    assert Handle(once, max, interval, breaches[1]) == (twice, true);
    assert breaches[1..] == [breaches[1]] && breaches[1..][1..] == [];
    assert FileAfter(Missing, max, interval, breaches) == FileAfter(once, max, interval, breaches[1..]);
    assert FileAfter(once, max, interval, breaches[1..]) == FileAfter(twice, max, interval, []);
    assert !Spaced([first, second], interval) by {
      assert [first, second][1].time.value < [first, second][0].time.value + interval;
    }
    assert !GuardedRecord(twice.versions[0], max, interval);
  }

  /** The guard works in every run, for all clocks that do not go back between check and record, exactly when
      the interval is positive or at most one restart is allowed. */
  lemma {:induction false} GuardWorksExactlyWhen(max: int, interval: int)
    ensures max <= 1 || interval > 0 <==>
            forall breaches :: ClockHolds(breaches) ==>
                Guarded(Loaded(FileAfter(Missing, max, interval, breaches)), max, interval)
  {
    if max <= 1 || interval > 0 {
      forall breaches | ClockHolds(breaches)
        ensures Guarded(Loaded(FileAfter(Missing, max, interval, breaches)), max, interval)
      {
        RunKeepsGuarded(Missing, max, interval, breaches);
      }
    } else {
      NoIntervalNoOrder("", max, interval);
      assert ClockHolds(ClockSetBack("", interval));
    }
  }
}
