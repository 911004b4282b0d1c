/** The history of restarts made for exceeding the memory quota: the guard, the record and its pruning. */
module RestartHistory {
  import opened Common
  import opened Sorting

  /** Microseconds since the least time there is, which stands for a version without restarts. */
  type Time = nat

  const NEVER: Time := 0
  const MAX_VERSIONS_RETAINED := 3

  /** A restart; the time is None when the recorded text cannot be parsed. */
  datatype Entry = Entry(time: Option<Time>, anonBytes: int)

  /** The restarts of one agent version, in the order recorded. */
  datatype Record = Record(version: string, entries: seq<Entry>)

  /** The history file: absent, not JSON, of another schema, or current. */
  datatype File = Missing | Unreadable | Foreign | Current(versions: seq<Record>)

  datatype RestartError = BadTimestamp

  function Loaded(file: File): seq<Record> {
    if file.Current? then file.versions else []
  }

  /** An unreadable file is moved out of the way, if that works. */
  function FileAfterLoad(file: File, renamed: bool): File {
    if file.Unreadable? && renamed then Missing else file
  }

  function EntriesOf(versions: seq<Record>, version: string): seq<Entry> {
    if versions == [] then []
    else if versions[0].version == version then versions[0].entries
    else EntriesOf(versions[1..], version)
  }

  /** The dictionary with one more entry under the version; a new version goes last. */
  function Append(versions: seq<Record>, version: string, e: Entry): seq<Record> {
    if versions == [] then [Record(version, [e])]
    else if versions[0].version == version then [Record(version, versions[0].entries + [e])] + versions[1..]
    else [versions[0]] + Append(versions[1..], version, e)
  }

  function Later(a: Time, b: Time): Time {
    if a < b then b else a
  }

  /** The latest time, NEVER for no entries, None if one cannot be parsed. */
  function Latest(entries: seq<Entry>): Option<Time> {
    if entries == [] then Some(NEVER)
    else
      var last, rest := entries[|entries| - 1].time, Latest(entries[..|entries| - 1]);
      if last.None? || rest.None? then None else Some(Later(rest.value, last.value))
  }

  /** version_can_restart, for the entries of the version; a clock behind the last restart counts as no
      time elapsed. */
  function CanRestart(entries: seq<Entry>, max: int, interval: int, now: Time): Result<bool, RestartError> {
    if |entries| >= max then Ok(false)
    else if entries == [] then Ok(true)
    else
      match Latest(entries)
      case None => Err(BadTimestamp)
      case Some(last) => Ok((if now < last then 0 else now - last) >= interval)
  }

  function Recency(r: Record): Time {
    var latest := Latest(r.entries);
    if latest.Some? then latest.value else NEVER
  }

  predicate Parseable(versions: seq<Record>) {
    forall i :: 0 <= i < |versions| ==> Latest(versions[i].entries).Some?
  }

  /** The sort key: the most recent version comes first. */
  function Age(r: Record): int {
    var t: int := Recency(r);
    -t
  }

  /** Pruning does nothing to three versions or fewer, or when a timestamp cannot be parsed. */
  function Pruned(versions: seq<Record>): seq<Record> {
    if |versions| <= MAX_VERSIONS_RETAINED || !Parseable(versions) then versions
    else Sort(Age, versions)[..MAX_VERSIONS_RETAINED]
  }

  /** A sustained breach of the memory quota, and how the clock and the file system behave. */
  datatype Breach = Breach(version: string, checked: Time, recorded: Time, anonBytes: int, renamed: bool, saved: bool)

  /** The guarded restart of the agent: the file afterwards, and whether the agent exits. */
  function Handle(file: File, max: int, interval: int, b: Breach): (File, bool) {
    var versions, after := Loaded(file), FileAfterLoad(file, b.renamed);
    if CanRestart(EntriesOf(versions, b.version), max, interval, b.checked) != Ok(true) then (after, false)
    else if !b.saved then (after, false)
    else (Current(Pruned(Append(versions, b.version, Entry(Some(b.recorded), b.anonBytes)))), true)
  }

  function FileAfter(file: File, max: int, interval: int, breaches: seq<Breach>): File
    decreases |breaches|
  {
    if breaches == [] then file
    else FileAfter(Handle(file, max, interval, breaches[0]).0, max, interval, breaches[1..])
  }
}
