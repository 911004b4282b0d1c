/** The restart history as an object over its file, and the check of the agent's main loop that uses it. */
module AgentMemoryRestartHistories {
  import opened Common
  import opened RestartHistory
  import opened Sorting

  class AgentMemoryRestartHistory {
    var file: File
    var versions: seq<Record>

    constructor (path: File, renamed: bool)
      ensures versions == Loaded(path) && file == FileAfterLoad(path, renamed)
    {
      file, versions := path, [];
      if path.Current? {
        versions := path.versions;
      } else if path.Unreadable? && renamed {
        file := Missing;
      }
    }

    method GetVersionRestarts(version: string) returns (entries: seq<Entry>)
      ensures entries == EntriesOf(versions, version)
    {
      for i := 0 to |versions|
        invariant EntriesOf(versions, version) == EntriesOf(versions[i..], version)
      {
        if versions[i].version == version {
          return versions[i].entries;
        }
        assert versions[i..][1..] == versions[i + 1..];
      }
      return [];
    }

    static method LatestTime(entries: seq<Entry>) returns (latest: Option<Time>)
      ensures latest == Latest(entries)
    {
      var max: Time := NEVER;
      for i := 0 to |entries|
        invariant Latest(entries[..i]) == Some(max)
      {
        assert entries[..i + 1][..i] == entries[..i];
        if entries[i].time.None? {
          UnparseablePrefix(entries, i + 1);
          return None;
        }
        max := Later(max, entries[i].time.value);
      }
      assert entries[..|entries|] == entries;
      return Some(max);
    }

    method VersionCanRestart(version: string, max: int, interval: int, now: Time)
      returns (r: Result<bool, RestartError>)
      ensures r == CanRestart(EntriesOf(versions, version), max, interval, now)
    {
      var entries := GetVersionRestarts(version);
      if |entries| >= max {
        return Ok(false);
      }
      if |entries| > 0 {
        var last := LatestTime(entries);
        if last.None? {
          return Err(BadTimestamp);
        }
        var delta := now - last.value;
        if delta < 0 {
          delta := 0;
        }
        if delta < interval {
          return Ok(false);
        }
      }
      return Ok(true);
    }

    method AppendEntry(version: string, e: Entry)
      modifies this
      ensures versions == Append(old(versions), version, e) && file == old(file)
    {
      for i := 0 to |versions|
        invariant versions == old(versions) && file == old(file)
        invariant Append(versions, version, e) == versions[..i] + Append(versions[i..], version, e)
      {
        assert versions[i..][1..] == versions[i + 1..];
        if versions[i].version == version {
          versions := versions[i := Record(version, versions[i].entries + [e])];
          return;
        }
        assert versions[..i] + [versions[i]] == versions[..i + 1];
      }
      assert versions[|versions|..] == [];
      versions := versions + [Record(version, [e])];
    }

    method PruneVersions()
      modifies this
      ensures versions == Pruned(old(versions)) && file == old(file)
    {
      if |versions| <= MAX_VERSIONS_RETAINED {
        return;
      }
      for i := 0 to |versions|
        invariant versions == old(versions) && file == old(file)
        invariant forall k :: 0 <= k < i ==> Latest(versions[k].entries).Some?
      {
        var latest := LatestTime(versions[i].entries);
        if latest.None? {
          return;
        }
      }
      versions := Sort(Age, versions)[..MAX_VERSIONS_RETAINED];
    }

    /** The record stays in memory even when saving fails and the caller gets the error. */
    method RecordRestart(version: string, anonBytes: int, now: Time, saved: bool) returns (ok: bool)
      modifies this
      ensures ok == saved && versions == Pruned(Append(old(versions), version, Entry(Some(now), anonBytes)))
      ensures file == if saved then Current(versions) else old(file)
    {
      AppendEntry(version, Entry(Some(now), anonBytes));
      PruneVersions();
      if saved {
        file := Current(versions);
      }
      return saved;
    }
  }

  lemma {:induction false} UnparseablePrefix(entries: seq<Entry>, n: nat)
    requires n <= |entries| && Latest(entries[..n]).None?
    ensures Latest(entries).None?
    decreases |entries|
  {
    if n < |entries| {
      var init := entries[..|entries| - 1];
      assert init[..n] == entries[..n];
      UnparseablePrefix(init, n);
    } else {
      assert entries[..n] == entries;
    }
  }

  /** The end of the memory check in the main loop, once enough consecutive breaches were seen. */
  method RestartOnBreach(path: File, max: int, interval: int, b: Breach) returns (file: File, exits: bool)
    ensures (file, exits) == Handle(path, max, interval, b)
  {
    var history := new AgentMemoryRestartHistory(path, b.renamed);
    var allowed := history.VersionCanRestart(b.version, max, interval, b.checked);
    if allowed.Err? || !allowed.value {
      return history.file, false;
    }
    exits := history.RecordRestart(b.version, b.anonBytes, b.recorded, b.saved);
    file := history.file;
  }
}
