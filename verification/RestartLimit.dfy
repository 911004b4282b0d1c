/** How often one version of the agent restarts, and when the limit holds for all versions. */
module RestartLimit {
  import opened Common
  import opened RestartHistory
  import opened RestartTheorems
  import opened Sorting

  // ----- While a version is remembered -----

  function Restarts(file: File, max: int, interval: int, breaches: seq<Breach>, version: string): nat
    decreases |breaches|
  {
    if breaches == [] then 0
    else
      var (next, exits) := Handle(file, max, interval, breaches[0]);
      (if exits && breaches[0].version == version then 1 else 0) + Restarts(next, max, interval, breaches[1..], version)
  }

  /** The version is retained after each of its own restarts and while it has restarts on record. */
  ghost predicate Remembered(file: File, max: int, interval: int, breaches: seq<Breach>, version: string)
    decreases |breaches|
  {
    breaches == [] ||
    var (next, exits) := Handle(file, max, interval, breaches[0]);
    && (Retained(Loaded(file), version) || (exits && breaches[0].version == version) ==>
        Retained(Loaded(next), version))
    && Remembered(next, max, interval, breaches[1..], version)
  }

  lemma {:induction false} AppendEntries(versions: seq<Record>, v: string, e: Entry, version: string)
    requires Distinct(versions)
    ensures Distinct(Append(versions, v, e))
    ensures EntriesOf(Append(versions, v, e), version)
         == EntriesOf(versions, version) + (if v == version then [e] else [])
  {
    var p := AppendPlace(versions, v, e);
    var appended := Append(versions, v, e);
    if Retained(versions, version) {
      var i :| 0 <= i < |versions| && versions[i].version == version;
      EntriesAt(versions, i);
      EntriesAt(appended, i);
    } else {
      EntriesOfMissing(versions, version);
      if v == version {
        EntriesAt(appended, p);
      } else {
        EntriesOfMissing(appended, version);
      }
    }
  }

  lemma {:induction false} RetainedEntries(versions: seq<Record>, version: string)
    requires Distinct(versions) && Retained(Pruned(versions), version)
    ensures EntriesOf(Pruned(versions), version) == EntriesOf(versions, version)
  {
    PrunedIsPart(versions);
    var pruned := Pruned(versions);
    var k :| 0 <= k < |pruned| && pruned[k].version == version;
    EntriesAt(pruned, k);
    var i :| 0 <= i < |versions| && versions[i] == pruned[k];
    EntriesAt(versions, i);
  }

  lemma {:induction false} HandleCounts(file: File, max: int, interval: int, b: Breach, version: string)
    requires Distinct(Loaded(file)) && Remembered(file, max, interval, [b], version)
    ensures var (next, exits) := Handle(file, max, interval, b);
            && Distinct(Loaded(next))
            && |EntriesOf(Loaded(next), version)|
              == |EntriesOf(Loaded(file), version)| + (if exits && b.version == version then 1 else 0)
  {
    var (next, exits) := Handle(file, max, interval, b);
    if exits {
      var versions, e := Loaded(file), Entry(Some(b.recorded), b.anonBytes);
      AppendEntries(versions, b.version, e, version);
      PrunedIsPart(Append(versions, b.version, e));
      if Retained(Loaded(next), version) {
        RetainedEntries(Append(versions, b.version, e), version);
      } else {
        EntriesOfMissing(versions, version);
        EntriesOfMissing(Loaded(next), version);
      }
    }
  }

  /** Across any run in which pruning never drops it, a version restarts at most the allowed number of times. */
  lemma {:induction false} RestartsAreBounded(file: File, max: int, interval: int, breaches: seq<Breach>,
                                              version: string)
    requires Distinct(Loaded(file)) && Remembered(file, max, interval, breaches, version)
    requires |EntriesOf(Loaded(file), version)| <= max
    ensures |EntriesOf(Loaded(file), version)| + Restarts(file, max, interval, breaches, version) <= max
    decreases |breaches|
  {
    if breaches != [] {
      var (next, exits) := Handle(file, max, interval, breaches[0]);
      assert Remembered(next, max, interval, [], version);
      assert [breaches[0]][1..] == [];
      HandleCounts(file, max, interval, breaches[0], version);
      RestartsAreBounded(next, max, interval, breaches[1..], version);
    }
  }

  // ----- With at most three versions -----

  ghost predicate DrawnFrom(breaches: seq<Breach>, vs: set<string>) {
    forall i :: 0 <= i < |breaches| ==> breaches[i].version in vs
  }

  ghost predicate NamesIn(versions: seq<Record>, vs: set<string>) {
    forall i :: 0 <= i < |versions| ==> versions[i].version in vs
  }

  lemma {:induction false} AtMostAsMany(versions: seq<Record>, vs: set<string>)
    requires Distinct(versions) && NamesIn(versions, vs)
    ensures |versions| <= |vs|
    decreases |versions|
  {
    if versions != [] {
      AtMostAsMany(versions[1..], vs - {versions[0].version});
    }
  }

  lemma {:induction false} AppendNames(versions: seq<Record>, v: string, e: Entry, vs: set<string>)
    requires Distinct(versions) && NamesIn(versions, vs) && v in vs
    ensures Distinct(Append(versions, v, e)) && NamesIn(Append(versions, v, e), vs)
    ensures forall version :: Retained(versions, version) || version == v ==> Retained(Append(versions, v, e), version)
  {
    var p := AppendPlace(versions, v, e);
    var appended := Append(versions, v, e);
    assert appended[p].version == v;
    forall version | Retained(versions, version)
      ensures Retained(appended, version)
    {
      var i :| 0 <= i < |versions| && versions[i].version == version;
      assert appended[i].version == version;
    }
  }

  /** With at most three versions around nothing is ever pruned. */
  lemma {:induction false} FewAreRemembered(file: File, max: int, interval: int, breaches: seq<Breach>, vs: set<string>,
                                            version: string)
    requires Distinct(Loaded(file)) && NamesIn(Loaded(file), vs) && DrawnFrom(breaches, vs)
    requires |vs| <= MAX_VERSIONS_RETAINED
    ensures Remembered(file, max, interval, breaches, version)
    decreases |breaches|
  {
    if breaches != [] {
      var b, versions := breaches[0], Loaded(file);
      var e := Entry(Some(b.recorded), b.anonBytes);
      AppendNames(versions, b.version, e, vs);
      AtMostAsMany(Append(versions, b.version, e), vs);
      FewAreRemembered(Handle(file, max, interval, b).0, max, interval, breaches[1..], vs, version);
    }
  }

  // ----- With four versions -----

  lemma {:induction false} Concat(file: File, max: int, interval: int, x: seq<Breach>, y: seq<Breach>, version: string)
    ensures FileAfter(file, max, interval, x + y) == FileAfter(FileAfter(file, max, interval, x), max, interval, y)
    ensures Restarts(file, max, interval, x + y, version)
         == Restarts(file, max, interval, x, version)
           + Restarts(FileAfter(file, max, interval, x), max, interval, y, version)
    decreases |x|
  {
    if x == [] {
      assert x + y == y;
    } else {
      assert (x + y)[0] == x[0] && (x + y)[1..] == x[1..] + y;
      Concat(Handle(file, max, interval, x[0]).0, max, interval, x[1..], y, version);
    }
  }

  lemma {:induction false} One(file: File, max: int, interval: int, b: Breach, version: string)
    ensures FileAfter(file, max, interval, [b]) == Handle(file, max, interval, b).0
    ensures Restarts(file, max, interval, [b], version)
         == if Handle(file, max, interval, b).1 && b.version == version then 1 else 0
  {
    assert [b][1..] == [];
  }

  /** A restart at the given time, with a clock and a file system that behave. */
  function At(version: string, time: Time): Breach {
    Breach(version, time, time, 0, true, true)
  }

  function EntryAt(time: Time): Entry {
    Entry(Some(time), 0)
  }

  /** A version not on record is allowed and recorded last. */
  lemma {:induction false} NewVersion(versions: seq<Record>, version: string, time: Time, max: int, interval: int)
    requires Distinct(versions) && !Retained(versions, version) && max >= 1
    ensures Handle(Current(versions), max, interval, At(version, time))
         == (Current(Pruned(versions + [Record(version, [EntryAt(time)])])), true)
  {
    EntriesOfMissing(versions, version);
    var p := AppendPlace(versions, version, EntryAt(time));
  }

  /** Three more recent versions push a version out, whatever its record; it may then restart as if it never had. */
  lemma {:induction false} ForgottenVersionRestartsAgain(a: Record, b: Record, c: Record, d: string, time: Time,
                                                         max: int, interval: int)
    requires Distinct([a, b, c]) && !Retained([a, b, c], d) && Parseable([a, b, c]) && max >= 1
    requires Recency(a) < Recency(b) && Recency(a) < Recency(c) && Recency(a) < time
    ensures var (next, exits) := Handle(Current([a, b, c]), max, interval, At(d, time));
            exits && Distinct(Loaded(next)) && !Retained(Loaded(next), a.version)
            && forall now :: CanRestart(EntriesOf(Loaded(next), a.version), max, interval, now) == Ok(true)
  {
    var added := Record(d, [EntryAt(time)]);
    var all := [a, b, c] + [added];
    NewVersion([a, b, c], d, time, max, interval);
    SingleRecency(d, EntryAt(time));
    assert all[0] == a && all[1] == b && all[2] == c && all[3] == added;
    assert [a, b, c][0] == a && [a, b, c][1] == b && [a, b, c][2] == c;
    assert all[1..] == [b, c, added];
    AllSmaller(Age, all[1..], Age(a));
    assert Ahead(Age, all, 0) == 3;
    PrunedKeepsExactly(all, 0);
    PrunedIsPart(all);
    EntriesOfMissing(Pruned(all), a.version);
  }

  function Gap(interval: int): nat {
    if interval < 1 then 1 else interval
  }

  function TimeOf(i: nat, interval: int): Time {
    if i == 0 then 1 else TimeOf(i - 1, interval) + Gap(interval)
  }

  /** n restarts of a version, as close as the interval allows. */
  function Fill(version: string, n: nat, interval: int): seq<Breach> {
    if n == 0 then [] else Fill(version, n - 1, interval) + [At(version, TimeOf(n - 1, interval))]
  }

  function Entries(n: nat, interval: int): seq<Entry> {
    if n == 0 then [] else Entries(n - 1, interval) + [EntryAt(TimeOf(n - 1, interval))]
  }

  lemma {:induction false} LatestEntry(n: nat, interval: int)
    ensures |Entries(n, interval)| == n
    ensures Latest(Entries(n, interval)) == Some(if n == 0 then NEVER else TimeOf(n - 1, interval))
  {
    if n > 0 {
      LatestEntry(n - 1, interval);
      assert Entries(n, interval)[..n - 1] == Entries(n - 1, interval);
    }
  }

  lemma {:induction false} NextFill(version: string, n: nat, max: int, interval: int)
    requires n < max
    ensures Handle(if n == 0 then Missing else Current([Record(version, Entries(n, interval))]),
                   max, interval, At(version, TimeOf(n, interval)))
         == (Current([Record(version, Entries(n + 1, interval))]), true)
  {
    LatestEntry(n, interval);
    if n == 0 {
      assert Entries(1, interval) == [EntryAt(TimeOf(0, interval))];
    } else {
      var versions := [Record(version, Entries(n, interval))];
      assert EntriesOf(versions, version) == Entries(n, interval);
      assert TimeOf(n, interval) - TimeOf(n - 1, interval) >= interval;
      assert Append(versions, version, EntryAt(TimeOf(n, interval))) == [Record(version, Entries(n + 1, interval))];
    }
  }

  lemma {:induction false} Filled(version: string, n: nat, max: int, interval: int)
    requires n <= max
    ensures FileAfter(Missing, max, interval, Fill(version, n, interval))
         == if n == 0 then Missing else Current([Record(version, Entries(n, interval))])
    ensures Restarts(Missing, max, interval, Fill(version, n, interval), version) == n
    decreases n
  {
    if n > 0 {
      var b := At(version, TimeOf(n - 1, interval));
      Filled(version, n - 1, max, interval);
      NextFill(version, n - 1, max, interval);
      Concat(Missing, max, interval, Fill(version, n - 1, interval), [b], version);
      One(FileAfter(Missing, max, interval, Fill(version, n - 1, interval)), max, interval, b, version);
    }
  }

  predicate AllDifferent(a: string, b: string, c: string, d: string) {
    a != b && a != c && a != d && b != c && b != d && c != d
  }

  lemma {:induction false} FirstOf(file: File, next: File, exits: bool, b: Breach, rest: seq<Breach>, max: int,
                                   interval: int, version: string)
    requires Handle(file, max, interval, b) == (next, exits)
    ensures Restarts(file, max, interval, [b] + rest, version)
         == (if exits && b.version == version then 1 else 0) + Restarts(next, max, interval, rest, version)
  {
    assert ([b] + rest)[1..] == rest;
  }

  /** Three other versions restart, and then the first one again. */
  function Others(a: string, b: string, c: string, d: string, t: Time): seq<Breach> {
    [At(b, t + 1)] + ([At(c, t + 2)] + ([At(d, t + 3)] + [At(a, t + 4)]))
  }

  lemma {:induction false} PushedOut(ra: Record, rb: Record, rc: Record, d: string, t: Time, max: int, interval: int)
    requires Distinct([ra, rb, rc]) && !Retained([ra, rb, rc], d) && Parseable([ra, rb, rc]) && max >= 1
    requires Recency(ra) == t && Recency(rb) == t + 1 && Recency(rc) == t + 2
    ensures Restarts(Current([ra, rb, rc]), max, interval, [At(d, t + 3)] + [At(ra.version, t + 4)], ra.version) == 1
  {
    var a := ra.version;
    assert d != [ra, rb, rc][0].version;
    ForgottenVersionRestartsAgain(ra, rb, rc, d, t + 3, max, interval);
    var last := Handle(Current([ra, rb, rc]), max, interval, At(d, t + 3)).0;
    FirstOf(Current([ra, rb, rc]), last, true, At(d, t + 3), [At(a, t + 4)], max, interval, a);
    NewVersion(Loaded(last), a, t + 4, max, interval);
    One(last, max, interval, At(a, t + 4), a);
  }

  lemma {:induction false} SecondAndThird(ra: Record, b: string, c: string, t: Time, rest: seq<Breach>, max: int,
                                          interval: int)
    requires ra.version != b && ra.version != c && b != c && max >= 1
    ensures var rb, rc := Record(b, [EntryAt(t + 1)]), Record(c, [EntryAt(t + 2)]);
            Restarts(Current([ra]), max, interval, [At(b, t + 1)] + ([At(c, t + 2)] + rest), ra.version) ==
            Restarts(Current([ra, rb, rc]), max, interval, rest, ra.version)
  {
    var rb, rc := Record(b, [EntryAt(t + 1)]), Record(c, [EntryAt(t + 2)]);
    NewVersion([ra], b, t + 1, max, interval);
    assert [ra] + [rb] == [ra, rb] && [ra, rb] + [rc] == [ra, rb, rc];
    FirstOf(Current([ra]), Current([ra, rb]), true, At(b, t + 1), [At(c, t + 2)] + rest, max, interval, ra.version);
    NewVersion([ra, rb], c, t + 2, max, interval);
    FirstOf(Current([ra, rb]), Current([ra, rb, rc]), true, At(c, t + 2), rest, max, interval, ra.version);
  }

  lemma {:induction false} OthersPushOut(ra: Record, b: string, c: string, d: string, t: Time, max: int, interval: int)
    requires AllDifferent(ra.version, b, c, d) && Latest(ra.entries) == Some(t) && max >= 1
    ensures Restarts(Current([ra]), max, interval, Others(ra.version, b, c, d, t), ra.version) == 1
  {
    var rb, rc := Record(b, [EntryAt(t + 1)]), Record(c, [EntryAt(t + 2)]);
    SingleRecency(b, EntryAt(t + 1));
    SingleRecency(c, EntryAt(t + 2));
    SecondAndThird(ra, b, c, t, [At(d, t + 3)] + [At(ra.version, t + 4)], max, interval);
    PushedOut(ra, rb, rc, d, t, max, interval);
  }

  /** Version a restarts as often as it may, three others restart, and a restarts once more. */
  function Overrun(a: string, b: string, c: string, d: string, max: nat, interval: int): seq<Breach>
    requires max >= 1
  {
    Fill(a, max, interval) + Others(a, b, c, d, TimeOf(max - 1, interval))
  }

  lemma {:induction false} LimitIsOverrun(a: string, b: string, c: string, d: string, max: nat, interval: int)
    requires max >= 1 && AllDifferent(a, b, c, d)
    ensures Restarts(Missing, max, interval, Overrun(a, b, c, d, max, interval), a) == max + 1
  {
    var t := TimeOf(max - 1, interval);
    Filled(a, max, max, interval);
    LatestEntry(max, interval);
    Concat(Missing, max, interval, Fill(a, max, interval), Others(a, b, c, d, t), a);
    OthersPushOut(Record(a, Entries(max, interval)), b, c, d, t, max, interval);
  }

  lemma {:induction false} FourOf(vs: set<string>) returns (a: string, b: string, c: string, d: string)
    requires |vs| > MAX_VERSIONS_RETAINED
    ensures AllDifferent(a, b, c, d) && {a, b, c, d} <= vs
  {
    a := SomeOf(vs);
    var others := vs - {a};
    assert |others| == |vs| - 1;
    b := SomeOf(others);
    var pair := others - {b};
    assert |pair| == |others| - 1;
    c := SomeOf(pair);
    var rest := pair - {c};
    assert |rest| == |pair| - 1;
    d := SomeOf(rest);
  }

  lemma {:induction false} FillIsDrawnFrom(version: string, n: nat, interval: int, vs: set<string>)
    requires version in vs
    ensures DrawnFrom(Fill(version, n, interval), vs)
  {
    if n > 0 {
      FillIsDrawnFrom(version, n - 1, interval, vs);
    }
  }

  /** A limit of zero allows no restart at all. */
  lemma {:induction false} ZeroAllowsNone(file: File, interval: int, breaches: seq<Breach>, version: string)
    ensures Restarts(file, 0, interval, breaches, version) == 0
    decreases |breaches|
  {
    if breaches != [] {
      ZeroAllowsNone(Handle(file, 0, interval, breaches[0]).0, interval, breaches[1..], version);
    }
  }

  /** Every version of a set restarts at most the allowed number of times, in every run over that set from an empty
      history, exactly when the set has at most three versions or no restart is allowed at all. */
  lemma {:induction false} LimitHoldsExactlyWhen(vs: set<string>, max: nat, interval: int)
    ensures (forall breaches, v :: DrawnFrom(breaches, vs) && v in vs ==>
                Restarts(Missing, max, interval, breaches, v) <= max)
       <==> |vs| <= MAX_VERSIONS_RETAINED || max == 0
  {
    if |vs| <= MAX_VERSIONS_RETAINED {
      forall breaches, v | DrawnFrom(breaches, vs) && v in vs
        ensures Restarts(Missing, max, interval, breaches, v) <= max
      {
        FewAreRemembered(Missing, max, interval, breaches, vs, v);
        RestartsAreBounded(Missing, max, interval, breaches, v);
      }
    } else if max == 0 {
      forall breaches, v | DrawnFrom(breaches, vs) && v in vs
        ensures Restarts(Missing, max, interval, breaches, v) <= max
      {
        ZeroAllowsNone(Missing, interval, breaches, v);
      }
    } else {
      var a, b, c, d := FourOf(vs);
      FillIsDrawnFrom(a, max, interval, vs);
      LimitIsOverrun(a, b, c, d, max, interval);
      assert DrawnFrom(Overrun(a, b, c, d, max, interval), vs);
    }
  }
}
