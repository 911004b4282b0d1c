/** How often each line of one boot's log is counted, over any scans and restarts of the agent. */
module LockupCounting {
  import opened Common
  import opened SoftLockups
  import opened SoftLockupTheorems

  // ----- Runs within one boot -----

  /** dmesg shows lines from..stop of the boot's log and the watermark may or may not be saved; or the agent
      restarts, reads a boot ID, and can or cannot read the state file. */
  datatype Event = ScanWindow(from: nat, stop: nat, saveWorks: bool) | RestartEvent(bootId: string, readable: bool)

  function TimedLines(lines: seq<Line>): seq<Line> {
    if lines == [] then []
    else TimedLines(lines[..|lines| - 1]) + if lines[|lines| - 1].timestamp.Some? then [lines[|lines| - 1]] else []
  }

  /** Timestamps are positive and never decrease. */
  ghost predicate WellTimed(log: seq<Line>) {
    && (forall i :: 0 <= i < |log| && log[i].timestamp.Some? ==> log[i].timestamp.value > 0.0)
    && (forall i, j :: 0 <= i < j < |log| && log[i].timestamp.Some? && log[j].timestamp.Some? ==>
          log[i].timestamp.value <= log[j].timestamp.value)
  }

  /** Lines from `end` on are strictly newer than those before it. */
  ghost predicate NewerFrom(log: seq<Line>, end: nat) {
    forall i, j :: 0 <= i < end <= j < |log| && log[i].timestamp.Some? && log[j].timestamp.Some? ==>
      log[i].timestamp.value < log[j].timestamp.value
  }

  /** Every scan shows at least what is new since the one before; the ring buffer may have dropped older lines,
      and lines added after a scan are strictly newer than it. A start reads the boot's ID or fails to. */
  ghost predicate ValidRun(boot: string, log: seq<Line>, end: nat, events: seq<Event>)
    decreases |events|
  {
    events == [] ||
    match events[0]
    case ScanWindow(from, stop, _) =>
      from <= end <= stop <= |log| && NewerFrom(log, stop) && ValidRun(boot, log, stop, events[1..])
    case RestartEvent(bootId, _) =>
      (bootId == boot || bootId == UNKNOWN_BOOT_ID) && ValidRun(boot, log, end, events[1..])
  }

  /** The accepted lines of all scans, one after the other. */
  ghost function AcceptedInRun(m: Monitor, boot: string, log: seq<Line>, end: nat, events: seq<Event>): seq<Line>
    requires ValidRun(boot, log, end, events)
    decreases |events|
  {
    if events == [] then []
    else match events[0]
      case ScanWindow(from, stop, saveWorks) =>
        AcceptedLines(log[from..stop], m.watermark)
        + AcceptedInRun(Operate(m, log[from..stop], saveWorks).0, boot, log, stop, events[1..])
      case RestartEvent(bootId, readable) => AcceptedInRun(Restart(m, bootId, readable), boot, log, end, events[1..])
  }

  /** Where the last scan ends. */
  function EndOfRun(end: nat, events: seq<Event>): nat
    decreases |events|
  {
    if events == [] then end
    else EndOfRun(if events[0].ScanWindow? then events[0].stop else end, events[1..])
  }

  lemma {:induction false} EndIsLater(boot: string, log: seq<Line>, end: nat, events: seq<Event>)
    requires end <= |log| && ValidRun(boot, log, end, events)
    ensures end <= EndOfRun(end, events) <= |log|
    decreases |events|
  {
    if events != [] {
      EndIsLater(boot, log, if events[0].ScanWindow? then events[0].stop else end, events[1..]);
    }
  }

  // ----- Which lines a watermark lets through -----

  lemma {:induction false} LastTimestampIsNewest(log: seq<Line>, end: nat, i: nat)
    requires WellTimed(log) && i < end <= |log| && log[i].timestamp.Some?
    ensures exists j :: i <= j < end && log[j].timestamp == Some(LastTimestamp(log[..end], 0.0))
    decreases end
  {
    assert log[..end][end - 1] == log[end - 1];
    if log[end - 1].timestamp.None? {
      assert log[..end][..end - 1] == log[..end - 1];
      LastTimestampIsNewest(log, end - 1, i);
    }
  }

  lemma {:induction false} TimestampOrigin(log: seq<Line>, end: nat)
    requires end <= |log|
    ensures LastTimestamp(log[..end], 0.0) == 0.0 ||
            exists j :: 0 <= j < end && log[j].timestamp == Some(LastTimestamp(log[..end], 0.0))
    decreases end
  {
    if end > 0 {
      assert log[..end][end - 1] == log[end - 1] && log[..end][..end - 1] == log[..end - 1];
      TimestampOrigin(log, end - 1);
    }
  }

  /** Which lines a scan accepts, knowing how far the watermark reaches. */
  lemma {:induction false} AcceptedIffNew(log: seq<Line>, end: nat, i: nat)
    requires WellTimed(log) && NewerFrom(log, end) && end <= |log| && i < |log|
    ensures Accepted(log[i], LastTimestamp(log[..end], 0.0)) <==> log[i].timestamp.Some? && i >= end
  {
    if log[i].timestamp.Some? {
      if i < end {
        LastTimestampIsNewest(log, end, i);
      } else {
        TimestampOrigin(log, end);
      }
    }
  }

  lemma {:induction false} LastOfWindow(log: seq<Line>, from: nat, stop: nat)
    requires from < stop <= |log|
    ensures var window := log[from..stop];
            window[|window| - 1] == log[stop - 1] && window[..|window| - 1] == log[from..stop - 1]
  {
  }

  lemma {:induction false} AcceptLast(log: seq<Line>, from: nat, stop: nat, baseline: real)
    requires from < stop <= |log|
    ensures AcceptedLines(log[from..stop], baseline)
         == AcceptedLines(log[from..stop - 1], baseline)
            + if Accepted(log[stop - 1], baseline) then [log[stop - 1]] else []
    ensures TimedLines(log[from..stop])
         == TimedLines(log[from..stop - 1]) + if log[stop - 1].timestamp.Some? then [log[stop - 1]] else []
  {
    LastOfWindow(log, from, stop);
  }

  /** The baseline accepts exactly the timed lines from `end` on. */
  ghost predicate SplitsAt(log: seq<Line>, baseline: real, end: nat) {
    forall i :: 0 <= i < |log| ==> (Accepted(log[i], baseline) <==> log[i].timestamp.Some? && i >= end)
  }

  lemma {:induction false} NoneAccepted(log: seq<Line>, from: nat, end: nat, stop: nat, baseline: real)
    requires SplitsAt(log, baseline, end) && from <= stop <= end <= |log|
    ensures AcceptedLines(log[from..stop], baseline) == []
    decreases stop
  {
    if from < stop {
      NoneAccepted(log, from, end, stop - 1, baseline);
      AcceptLast(log, from, stop, baseline);
    }
  }

  function Max(a: nat, b: nat): nat {
    if a < b then b else a
  }

  lemma {:induction false} AcceptedFrom(log: seq<Line>, from: nat, end: nat, stop: nat, baseline: real)
    requires SplitsAt(log, baseline, end) && from <= stop <= |log| && end <= stop
    ensures AcceptedLines(log[from..stop], baseline) == TimedLines(log[Max(from, end)..stop])
    decreases stop
  {
    if Max(from, end) == stop {
      assert log[stop..stop] == [];
      if from < stop {
        NoneAccepted(log, from, end, stop, baseline);
      }
    } else {
      AcceptedFrom(log, from, end, stop - 1, baseline);
      AcceptLast(log, from, stop, baseline);
      AcceptLast(log, Max(from, end), stop, baseline);
    }
  }

  lemma {:induction false} WindowAccepts(log: seq<Line>, from: nat, end: nat, stop: nat)
    requires WellTimed(log) && NewerFrom(log, end) && from <= stop <= |log| && end <= stop
    ensures AcceptedLines(log[from..stop], LastTimestamp(log[..end], 0.0)) == TimedLines(log[Max(from, end)..stop])
  {
    forall i | 0 <= i < |log|
      ensures Accepted(log[i], LastTimestamp(log[..end], 0.0)) <==> log[i].timestamp.Some? && i >= end
    {
      AcceptedIffNew(log, end, i);
    }
    AcceptedFrom(log, from, end, stop, LastTimestamp(log[..end], 0.0));
  }

  lemma {:induction false} LastTimestampConcat(log: seq<Line>, end: nat, stop: nat)
    requires end <= stop <= |log|
    ensures LastTimestamp(TimedLines(log[end..stop]), LastTimestamp(log[..end], 0.0)) == LastTimestamp(log[..stop], 0.0)
    decreases stop
  {
    if end < stop {
      AcceptLast(log, end, stop, 0.0);
      assert log[..stop][stop - 1] == log[stop - 1] && log[..stop][..stop - 1] == log[..stop - 1];
      LastTimestampConcat(log, end, stop - 1);
      var before := TimedLines(log[end..stop - 1]);
      assert (before + [log[stop - 1]])[..|before|] == before && before + [] == before;
    } else {
      assert log[end..stop] == [];
    }
  }

  lemma {:induction false} TimedLinesConcat(a: seq<Line>, b: seq<Line>)
    ensures TimedLines(a + b) == TimedLines(a) + TimedLines(b)
    decreases |b|
  {
    if b == [] {
      assert a + b == a;
    } else {
      var n := |b| - 1;
      assert (a + b)[|a + b| - 1] == b[n] && (a + b)[..|a + b| - 1] == a + b[..n];
      TimedLinesConcat(a, b[..n]);
    }
  }

  lemma {:induction false} JoinWindows(log: seq<Line>, end: nat, stop: nat, last: nat)
    requires end <= stop <= last <= |log|
    ensures TimedLines(log[end..stop]) + TimedLines(log[stop..last]) == TimedLines(log[end..last])
  {
    TimedLinesConcat(log[end..stop], log[stop..last]);
    assert log[end..stop] + log[stop..last] == log[end..last];
  }

  lemma {:induction false} DefaultIsUnused(lines: seq<Line>, a: real, b: real)
    requires TimedLines(lines) != []
    ensures LastTimestamp(TimedLines(lines), a) == LastTimestamp(TimedLines(lines), b)
    decreases |lines|
  {
    var timed, n := TimedLines(lines), |lines| - 1;
    if lines[n].timestamp.Some? {
      assert timed[|timed| - 1] == lines[n];
    } else {
      assert TimedLines(lines[..n]) + [] == TimedLines(lines[..n]);
      DefaultIsUnused(lines[..n], a, b);
    }
  }

  // ----- What the agent remembers, as positions in the log -----

  /** How many lines the watermark in memory covers, how many the state file covers for a start that reads
      file and boot ID, and whether the boot ID in memory is the boot's. */
  datatype Coverage = Coverage(memory: nat, file: nat, known: bool)

  /** Only a scan that shows a timed line beyond the watermark moves it. Its save, under an unknown boot ID,
      makes the file useless. */
  function CoverageAfterScan(c: Coverage, log: seq<Line>, from: nat, stop: nat, saveWorks: bool): Coverage
    requires from <= stop <= |log| && c.memory <= stop
  {
    if TimedLines(log[Max(from, c.memory)..stop]) == [] then c
    else c.(memory := stop, file := if !saveWorks then c.file else if c.known then stop else 0)
  }

  function CoverageAfterRestart(c: Coverage, boot: string, bootId: string, readable: bool): Coverage {
    c.(memory := if readable && bootId == boot then c.file else 0, known := bootId == boot)
  }

  /** The coverage describes the monitor. */
  ghost predicate Describes(c: Coverage, m: Monitor, boot: string, log: seq<Line>, end: nat) {
    && c.memory <= end <= |log| && c.file <= end && NewerFrom(log, c.memory) && NewerFrom(log, c.file)
    && m.watermark == LastTimestamp(log[..c.memory], 0.0)
    && SavedTimestamp(m.saved, boot) == LastTimestamp(log[..c.file], 0.0)
    && c.known == (m.bootId == boot) && (m.bootId == boot || m.bootId == UNKNOWN_BOOT_ID)
  }

  /** A scan accepts the timed lines of its window that memory does not cover. */
  lemma {:induction false} ScanStep(c: Coverage, m: Monitor, boot: string, log: seq<Line>, from: nat, end: nat,
                                    stop: nat, saveWorks: bool)
    requires WellTimed(log) && boot != UNKNOWN_BOOT_ID && Describes(c, m, boot, log, end)
    requires from <= end <= stop <= |log| && NewerFrom(log, stop)
    ensures AcceptedLines(log[from..stop], m.watermark) == TimedLines(log[Max(from, c.memory)..stop])
    ensures Describes(CoverageAfterScan(c, log, from, stop, saveWorks), Operate(m, log[from..stop], saveWorks).0,
                      boot, log, stop)
  {
    var p := Max(from, c.memory);
    WindowAccepts(log, from, c.memory, stop);
    ScanAggregates(m.watermark, log[from..stop], 0);
    ScanMovesWatermark(log[from..stop], m.watermark);
    if TimedLines(log[p..stop]) != [] {
      LastTimestampConcat(log, p, stop);
      DefaultIsUnused(log[p..stop], m.watermark, LastTimestamp(log[..p], 0.0));
    }
    assert log[..0] == [];
  }

  /** The watermark moves exactly when a line is accepted. */
  lemma {:induction false} ScanMovesWatermark(lines: seq<Line>, baseline: real)
    ensures LastTimestamp(AcceptedLines(lines, baseline), baseline) != baseline
       <==> AcceptedLines(lines, baseline) != []
    decreases |lines|
  {
    if lines != [] {
      var n := |lines| - 1;
      ScanMovesWatermark(lines[..n], baseline);
      var before := AcceptedLines(lines[..n], baseline);
      assert before + [] == before;
      if Accepted(lines[n], baseline) {
        assert (before + [lines[n]])[|before|] == lines[n];
      }
    }
  }

  lemma {:induction false} RestartStep(c: Coverage, m: Monitor, boot: string, log: seq<Line>, end: nat, bootId: string,
                                       readable: bool)
    requires boot != UNKNOWN_BOOT_ID && Describes(c, m, boot, log, end) && (bootId == boot || bootId == UNKNOWN_BOOT_ID)
    ensures Describes(CoverageAfterRestart(c, boot, bootId, readable), Restart(m, bootId, readable), boot, log, end)
  {
    assert log[..0] == [];
  }

  // ----- Exactly-once counting -----

  /** No scan shows a timed line that was scanned before and is not covered: on the boot IDs read, the saves
      and loads that work, and what dmesg shows. */
  ghost predicate NothingShownAgain(c: Coverage, boot: string, log: seq<Line>, end: nat, events: seq<Event>)
    requires c.memory <= end <= |log| && c.file <= end && ValidRun(boot, log, end, events)
    decreases |events|
  {
    events == [] ||
    match events[0]
    case ScanWindow(from, stop, saveWorks) =>
      && TimedLines(log[Max(from, c.memory)..end]) == []
      && NothingShownAgain(CoverageAfterScan(c, log, from, stop, saveWorks), boot, log, stop, events[1..])
    case RestartEvent(bootId, readable) =>
      NothingShownAgain(CoverageAfterRestart(c, boot, bootId, readable), boot, log, end, events[1..])
  }

  lemma {:induction false} CompareTails<T>(again: seq<T>, added: seq<T>, rest: seq<T>, expected: seq<T>)
    requires |rest| >= |expected|
    ensures (again + added) + rest == added + expected <==> again == [] && rest == expected
  {
    if (again + added) + rest == added + expected {
      assert |again| + |added| + |rest| == |added| + |expected|;
      assert again == [] && again + added == added;
      assert rest == (added + rest)[|added|..] == (added + expected)[|added|..] == expected;
    } else if again == [] {
      assert again + added == added;
    }
  }

  lemma {:induction false} PartOfMore<T>(again: seq<T>, added: seq<T>, rest: seq<T>, expected: seq<T>)
    requires multiset(expected) <= multiset(rest)
    ensures multiset(added + expected) <= multiset((again + added) + rest)
  {
  }

  /** Whatever is forgotten, every timestamped line up to the end of the last scan is counted, and as often as the log
      has it at least. */
  lemma {:induction false} NoLineIsMissed(c: Coverage, m: Monitor, boot: string, log: seq<Line>, end: nat,
                                          events: seq<Event>)
    requires WellTimed(log) && boot != UNKNOWN_BOOT_ID && Describes(c, m, boot, log, end)
    requires ValidRun(boot, log, end, events)
    ensures end <= EndOfRun(end, events) <= |log|
    ensures multiset(TimedLines(log[end..EndOfRun(end, events)])) <= multiset(AcceptedInRun(m, boot, log, end, events))
    decreases |events|
  {
    EndIsLater(boot, log, end, events);
    if events == [] {
      assert log[end..end] == [];
    } else {
      match events[0]
      case ScanWindow(from, stop, saveWorks) =>
        var p, last := Max(from, c.memory), EndOfRun(end, events);
        var next := Operate(m, log[from..stop], saveWorks).0;
        ScanStep(c, m, boot, log, from, end, stop, saveWorks);
        NoLineIsMissed(CoverageAfterScan(c, log, from, stop, saveWorks), next, boot, log, stop, events[1..]);
        JoinWindows(log, p, end, stop);
        JoinWindows(log, end, stop, last);
        PartOfMore(TimedLines(log[p..end]), TimedLines(log[end..stop]),
                   AcceptedInRun(next, boot, log, stop, events[1..]), TimedLines(log[stop..last]));
      case RestartEvent(bootId, readable) =>
        RestartStep(c, m, boot, log, end, bootId, readable);
        NoLineIsMissed(CoverageAfterRestart(c, boot, bootId, readable), Restart(m, bootId, readable),
                       boot, log, end, events[1..]);
    }
  }

  /** In every valid run within one boot no timestamped line is missed, and each is counted once, in order, exactly
      when nothing that was forgotten is shown again. */
  lemma {:induction false} CountedOnceExactlyWhen(c: Coverage, m: Monitor, boot: string, log: seq<Line>, end: nat,
                                                  events: seq<Event>)
    requires WellTimed(log) && boot != UNKNOWN_BOOT_ID && Describes(c, m, boot, log, end)
    requires ValidRun(boot, log, end, events)
    ensures end <= EndOfRun(end, events) <= |log|
    ensures |AcceptedInRun(m, boot, log, end, events)| >= |TimedLines(log[end..EndOfRun(end, events)])|
    ensures multiset(TimedLines(log[end..EndOfRun(end, events)])) <= multiset(AcceptedInRun(m, boot, log, end, events))
    ensures AcceptedInRun(m, boot, log, end, events) == TimedLines(log[end..EndOfRun(end, events)])
       <==> NothingShownAgain(c, boot, log, end, events)
    decreases |events|
  {
    NoLineIsMissed(c, m, boot, log, end, events);
    if events == [] {
      assert log[end..end] == [];
    } else {
      match events[0]
      case ScanWindow(from, stop, saveWorks) =>
        var p, last := Max(from, c.memory), EndOfRun(end, events);
        var next := Operate(m, log[from..stop], saveWorks).0;
        ScanStep(c, m, boot, log, from, end, stop, saveWorks);
        CountedOnceExactlyWhen(CoverageAfterScan(c, log, from, stop, saveWorks), next, boot, log, stop, events[1..]);
        JoinWindows(log, p, end, stop);
        JoinWindows(log, end, stop, last);
        CompareTails(TimedLines(log[p..end]), TimedLines(log[end..stop]),
                     AcceptedInRun(next, boot, log, stop, events[1..]), TimedLines(log[stop..last]));
      case RestartEvent(bootId, readable) =>
        RestartStep(c, m, boot, log, end, bootId, readable);
        CountedOnceExactlyWhen(CoverageAfterRestart(c, boot, bootId, readable), Restart(m, bootId, readable), boot,
                               log, end, events[1..]);
    }
  }

  /** Every start reads the boot ID and the file, and every save works. */
  ghost predicate Reliable(boot: string, events: seq<Event>) {
    forall i :: 0 <= i < |events| ==>
      if events[i].ScanWindow? then events[i].saveWorks else events[i].bootId == boot && events[i].readable
  }

  lemma {:induction false} NoTimedPart(log: seq<Line>, from: nat, p: nat, end: nat)
    requires from <= p <= end <= |log| && TimedLines(log[from..end]) == []
    ensures TimedLines(log[p..end]) == []
  {
    JoinWindows(log, from, p, end);
  }

  lemma {:induction false} ReliableShowsNothingAgain(c: Coverage, boot: string, log: seq<Line>, end: nat,
                                                     events: seq<Event>)
    requires c.memory <= end <= |log| && c.file <= end && ValidRun(boot, log, end, events) && c.known
    requires Reliable(boot, events)
    requires TimedLines(log[c.memory..end]) == [] && TimedLines(log[c.file..end]) == []
    ensures NothingShownAgain(c, boot, log, end, events)
    decreases |events|
  {
    if events != [] {
      assert events[0] == events[0 + 0];
      match events[0]
      case ScanWindow(from, stop, saveWorks) =>
        var p, next := Max(from, c.memory), CoverageAfterScan(c, log, from, stop, saveWorks);
        NoTimedPart(log, c.memory, p, end);
        JoinWindows(log, p, end, stop);
        JoinWindows(log, c.memory, end, stop);
        JoinWindows(log, c.file, end, stop);
        assert log[stop..stop] == [];
        ReliableShowsNothingAgain(next, boot, log, stop, events[1..]);
      case RestartEvent(bootId, readable) =>
        ReliableShowsNothingAgain(CoverageAfterRestart(c, boot, bootId, readable), boot, log, end, events[1..]);
    }
  }

  /** The first start of the agent in a boot: whatever file there is, it is from another boot. */
  function FirstStart(bootId: string, saved: Option<(string, real)>, readable: bool): Monitor {
    Restart(Monitor(bootId, 0.0, saved), bootId, readable)
  }

  lemma {:induction false} FirstStartIsDescribed(boot: string, bootId: string, saved: Option<(string, real)>,
                                                 readable: bool, log: seq<Line>)
    requires boot != UNKNOWN_BOOT_ID && (bootId == boot || bootId == UNKNOWN_BOOT_ID)
    requires (saved.Some? ==> saved.value.0 != boot)
    ensures Describes(Coverage(0, 0, bootId == boot), FirstStart(bootId, saved, readable), boot, log, 0)
  {
    assert log[..0] == [];
  }

  /** From the first start in a boot, over any scans and restarts: no timestamped line up to the end of the last scan is
      missed, and each is counted once, in order, exactly when nothing forgotten is shown again. */
  lemma {:induction false} BootIsCountedOnceExactlyWhen(boot: string, bootId: string, saved: Option<(string, real)>,
                                                        readable: bool, log: seq<Line>, events: seq<Event>)
    requires WellTimed(log) && boot != UNKNOWN_BOOT_ID && (bootId == boot || bootId == UNKNOWN_BOOT_ID)
    requires (saved.Some? ==> saved.value.0 != boot) && ValidRun(boot, log, 0, events)
    ensures EndOfRun(0, events) <= |log|
    ensures multiset(TimedLines(log[..EndOfRun(0, events)]))
         <= multiset(AcceptedInRun(FirstStart(bootId, saved, readable), boot, log, 0, events))
    ensures AcceptedInRun(FirstStart(bootId, saved, readable), boot, log, 0, events)
         == TimedLines(log[..EndOfRun(0, events)])
       <==> NothingShownAgain(Coverage(0, 0, bootId == boot), boot, log, 0, events)
  {
    FirstStartIsDescribed(boot, bootId, saved, readable, log);
    CountedOnceExactlyWhen(Coverage(0, 0, bootId == boot), FirstStart(bootId, saved, readable), boot, log, 0, events);
    assert log[0..EndOfRun(0, events)] == log[..EndOfRun(0, events)];
  }

  /** In particular when boot ID and state file can be read at every start and every save works. */
  lemma {:induction false} EveryLineIsCountedOnce(boot: string, saved: Option<(string, real)>, readable: bool,
                                                  log: seq<Line>, events: seq<Event>)
    requires WellTimed(log) && boot != UNKNOWN_BOOT_ID && (saved.Some? ==> saved.value.0 != boot)
    requires ValidRun(boot, log, 0, events) && Reliable(boot, events)
    ensures EndOfRun(0, events) <= |log|
    ensures AcceptedInRun(FirstStart(boot, saved, readable), boot, log, 0, events)
         == TimedLines(log[..EndOfRun(0, events)])
  {
    assert log[0..0] == [];
    ReliableShowsNothingAgain(Coverage(0, 0, true), boot, log, 0, events);
    BootIsCountedOnceExactlyWhen(boot, boot, saved, readable, log, events);
  }

  // ----- What forgetting costs -----

  /** Scan everything, restart, scan everything again. */
  function Rescan(log: seq<Line>, saveWorks: bool, bootId: string, readable: bool): seq<Event> {
    [ScanWindow(0, |log|, saveWorks), RestartEvent(bootId, readable), ScanWindow(0, |log|, true)]
  }

  /** A restart keeps the count exact, for a log with something to count, exactly when the boot ID is read at
      both starts, the save works and the file can be read. */
  lemma {:induction false} RestartForgetsExactlyWhen(boot: string, first: string, saveWorks: bool, second: string,
                                                     readable: bool, log: seq<Line>)
    requires WellTimed(log) && boot != UNKNOWN_BOOT_ID && TimedLines(log) != []
    requires first in {boot, UNKNOWN_BOOT_ID} && second in {boot, UNKNOWN_BOOT_ID}
    ensures ValidRun(boot, log, 0, Rescan(log, saveWorks, second, readable))
    ensures AcceptedInRun(FirstStart(first, None, true), boot, log, 0, Rescan(log, saveWorks, second, readable))
         == TimedLines(log)
       <==> first == boot && second == boot && saveWorks && readable
  {
    var events := Rescan(log, saveWorks, second, readable);
    var c := Coverage(0, 0, first == boot);
    assert events[1..] == [events[1], events[2]] && events[1..][1..] == [events[2]] && events[1..][1..][1..] == [];
    assert ValidRun(boot, log, |log|, events[1..][1..]);
    assert ValidRun(boot, log, |log|, events[1..]);
    assert EndOfRun(|log|, events[1..][1..]) == |log|;
    assert EndOfRun(|log|, events[1..]) == |log|;
    BootIsCountedOnceExactlyWhen(boot, first, None, true, log, events);
    assert log[..|log|] == log && log[0..|log|] == log && log[|log|..|log|] == [] && log[0..0] == [];
    var c1 := CoverageAfterScan(c, log, 0, |log|, saveWorks);
    var c2 := CoverageAfterRestart(c1, boot, second, readable);
    assert NothingShownAgain(c, boot, log, 0, events) <==> NothingShownAgain(c1, boot, log, |log|, events[1..]);
    assert NothingShownAgain(c1, boot, log, |log|, events[1..]) <==>
           NothingShownAgain(c2, boot, log, |log|, events[1..][1..]);
    assert Max(0, c2.memory) == c2.memory && ValidRun(boot, log, |log|, []);
    assert NothingShownAgain(CoverageAfterScan(c2, log, 0, |log|, true), boot, log, |log|, []);
    assert NothingShownAgain(c2, boot, log, |log|, events[1..][1..]) <==> TimedLines(log[c2.memory..|log|]) == [];
  }
}
