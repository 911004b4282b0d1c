/** What the trace capture, the aggregates and the watermark guarantee for every stream of lines. */
module SoftLockupTheorems {
  import opened Common
  import opened SoftLockups

  // ----- Bounds, byte accounting and contiguity -----

  /** A trace is a contiguous run of accepted lines that starts, at `start`, with its own lockup line;
      as long as it is open and not full it reaches to the latest accepted line. */
  ghost predicate Contiguous(t: Trace, accepted: seq<Line>, start: nat) {
    && 1 <= |t.lines| <= MAX_TRACE_LINES
    && start + |t.lines| <= |accepted|
    && t.lines == accepted[start..start + |t.lines|]
    && accepted[start].lockup.Some? && accepted[start].lockup.value.cpu == t.cpu
    && (!t.closed && |t.lines| < MAX_TRACE_LINES ==> start + |t.lines| == |accepted|)
  }

  ghost predicate AllContiguous(traces: seq<Trace>, accepted: seq<Line>, starts: seq<nat>) {
    |starts| == |traces| && forall i :: 0 <= i < |traces| ==> Contiguous(traces[i], accepted, starts[i])
  }

  ghost predicate WithinBudget(traces: seq<Trace>, bytes: int) {
    bytes == TraceBytes(traces) && bytes <= MAX_BYTES && |traces| <= MAX_TRACES
  }

  lemma {:induction false} LineBytesConcat(a: seq<Line>, b: seq<Line>)
    ensures LineBytes(a + b) == LineBytes(a) + LineBytes(b)
  {
    if a == [] {
      assert a + b == b;
    } else {
      assert (a + b)[0] == a[0] && (a + b)[1..] == a[1..] + b;
      LineBytesConcat(a[1..], b);
    }
  }

  lemma {:induction false} TraceBytesConcat(a: seq<Trace>, b: seq<Trace>)
    ensures TraceBytes(a + b) == TraceBytes(a) + TraceBytes(b)
  {
    if a == [] {
      assert a + b == b;
    } else {
      assert (a + b)[0] == a[0] && (a + b)[1..] == a[1..] + b;
      TraceBytesConcat(a[1..], b);
    }
  }

  lemma {:induction false} GrowKeepsContiguous(t: Trace, bytes: int, line: Line, accepted: seq<Line>, start: nat)
    requires Contiguous(t, accepted, start)
    ensures Contiguous(Grow(t, bytes, line).0, accepted + [line], start) && Grow(t, bytes, line).0.cpu == t.cpu
  {
    var n := start + |t.lines|;
    assert (accepted + [line])[start..n] == accepted[start..n];
    if n == |accepted| {
      assert (accepted + [line])[start..n + 1] == t.lines + [line];
    }
  }

  lemma {:induction false} AllContiguousCons(t: Trace, rest: seq<Trace>, accepted: seq<Line>, starts: seq<nat>)
    requires starts != [] && Contiguous(t, accepted, starts[0]) && AllContiguous(rest, accepted, starts[1..])
    ensures AllContiguous([t] + rest, accepted, starts)
  {
  }

  /** Appending to the open traces keeps each of them contiguous. */
  lemma {:induction false} AppendLineKeepsTraces(traces: seq<Trace>, bytes: int, line: Line, accepted: seq<Line>,
                                                 starts: seq<nat>)
    requires AllContiguous(traces, accepted, starts)
    ensures AllContiguous(AppendLine(traces, bytes, line).0, accepted + [line], starts)
    decreases |traces|
  {
    if traces != [] {
      var (first, b) := Grow(traces[0], bytes, line);
      GrowKeepsContiguous(traces[0], bytes, line, accepted, starts[0]);
      AppendLineKeepsTraces(traces[1..], b, line, accepted, starts[1..]);
      AllContiguousCons(first, AppendLine(traces[1..], b, line).0, accepted + [line], starts);
    }
  }

  /** `other` is the bytes held by traces outside the list. */
  lemma {:induction false} AppendLineKeepsBudget(traces: seq<Trace>, bytes: int, line: Line, other: nat)
    requires bytes == TraceBytes(traces) + other <= MAX_BYTES
    ensures var (after, b) := AppendLine(traces, bytes, line);
            |after| == |traces| && b == TraceBytes(after) + other <= MAX_BYTES
    decreases |traces|
  {
    if traces != [] {
      var (first, b) := Grow(traces[0], bytes, line);
      LineBytesConcat(traces[0].lines, [line]);
      assert LineBytes([line]) == |line.text|;
      AppendLineKeepsBudget(traces[1..], b, line, other + LineBytes(first.lines));
    }
  }

  lemma {:induction false} StartCaptureKeepsBudget(traces: seq<Trace>, bytes: int, cpu: nat, line: Line)
    requires WithinBudget(traces, bytes)
    ensures var (after, b) := StartCapture(traces, bytes, cpu, line); WithinBudget(after, b)
  {
    var room := RoomFor(traces, cpu);
    if !room.NoRoom? && !Refused(traces, bytes, cpu, line) {
      var kept, added := Kept(traces, room), Trace(cpu, [line], false);
      if room.Evict? {
        var i := room.index;
        assert traces == traces[..i] + ([traces[i]] + traces[i + 1..]);
        TraceBytesConcat(traces[..i], [traces[i]] + traces[i + 1..]);
        TraceBytesConcat([traces[i]], traces[i + 1..]);
        TraceBytesConcat(traces[..i], traces[i + 1..]);
        assert TraceBytes([traces[i]]) == LineBytes(traces[i].lines);
      }
      TraceBytesConcat(kept, [added]);
      assert LineBytes([line]) == |line.text| && TraceBytes([added]) == LineBytes([line]);
    }
  }

  lemma {:induction false} EvictionKeepsTraces(traces: seq<Trace>, accepted: seq<Line>, starts: seq<nat>, k: nat)
    requires AllContiguous(traces, accepted, starts) && k < |traces|
    ensures AllContiguous(traces[..k] + traces[k + 1..], accepted, starts[..k] + starts[k + 1..])
  {
    var kept, places := traces[..k] + traces[k + 1..], starts[..k] + starts[k + 1..];
    forall i | 0 <= i < |kept| ensures Contiguous(kept[i], accepted, places[i]) {
      var j := if i < k then i else i + 1;
      assert Contiguous(traces[j], accepted, starts[j]);
    }
  }

  lemma {:induction false} NewTraceIsContiguous(traces: seq<Trace>, accepted: seq<Line>, starts: seq<nat>, cpu: nat,
                                                line: Line)
    requires AllContiguous(traces, accepted, starts) && accepted != [] && accepted[|accepted| - 1] == line
    requires line.lockup.Some? && line.lockup.value.cpu == cpu
    ensures AllContiguous(traces + [Trace(cpu, [line], false)], accepted, starts + [|accepted| - 1])
  {
    assert [line] == accepted[|accepted| - 1..|accepted|];
    assert Contiguous(Trace(cpu, [line], false), accepted, |accepted| - 1);
  }

  lemma {:induction false} StartCaptureKeepsTraces(traces: seq<Trace>, bytes: int, cpu: nat, line: Line,
                                                   accepted: seq<Line>, starts: seq<nat>)
    returns (starts': seq<nat>)
    requires AllContiguous(traces, accepted, starts) && accepted != [] && accepted[|accepted| - 1] == line
    requires line.lockup.Some? && line.lockup.value.cpu == cpu
    ensures AllContiguous(StartCapture(traces, bytes, cpu, line).0, accepted, starts')
  {
    var room := RoomFor(traces, cpu);
    starts' := starts;
    if !room.NoRoom? && !Refused(traces, bytes, cpu, line) {
      if room.Evict? {
        EvictionKeepsTraces(traces, accepted, starts, room.index);
        starts' := starts[..room.index] + starts[room.index + 1..];
      }
      NewTraceIsContiguous(Kept(traces, room), accepted, starts', cpu, line);
      starts' := starts' + [|accepted| - 1];
    }
  }

  /** For every stream of lines: the byte counter is the summed length of all captured lines and within
      the budget, there are at most four traces of at most fifty lines, and each is a contiguous run of
      accepted lines starting at its own lockup line, also after evictions. */
  lemma {:induction false} ScanKeepsTracesSound(watermark: real, lines: seq<Line>) returns (starts: seq<nat>)
    ensures var s := ParseLines(StartScan(watermark), lines);
            && s.baseline == watermark
            && WithinBudget(s.traces, s.bytes)
            && AllContiguous(s.traces, AcceptedLines(lines, watermark), starts)
    decreases |lines|
  {
    if lines == [] {
      starts := [];
    } else {
      var n := |lines| - 1;
      var before, line := lines[..n], lines[n];
      starts := ScanKeepsTracesSound(watermark, before);
      if Accepted(line, watermark) {
        var s := ParseLines(StartScan(watermark), before);
        var accepted := AcceptedLines(before, watermark);
        AppendLineKeepsTraces(s.traces, s.bytes, line, accepted, starts);
        AppendLineKeepsBudget(s.traces, s.bytes, line, 0);
        var (traces, bytes) := AppendLine(s.traces, s.bytes, line);
        if line.lockup.Some? {
          StartCaptureKeepsBudget(traces, bytes, line.lockup.value.cpu, line);
          starts := StartCaptureKeepsTraces(traces, bytes, line.lockup.value.cpu, line, accepted + [line], starts);
        }
      }
    }
  }

  // ----- Which CPUs have a trace -----

  function TraceCpus(traces: seq<Trace>): set<nat> {
    set i | 0 <= i < |traces| :: traces[i].cpu
  }

  /** The CPUs of the accepted lockup lines, in order. */
  function SeenCpus(lines: seq<Line>, baseline: real): seq<nat> {
    if lines == [] then []
    else
      var line := lines[|lines| - 1];
      SeenCpus(lines[..|lines| - 1], baseline) +
      if Accepted(line, baseline) && line.lockup.Some? then [line.lockup.value.cpu] else []
  }

  function Distinct(cpus: seq<nat>): set<nat> {
    set i | 0 <= i < |cpus| :: cpus[i]
  }

  /** A CPU counts if fewer than four others were seen before it. */
  ghost predicate AmongFirst(cpus: seq<nat>, cpu: nat) {
    exists i :: 0 <= i < |cpus| && cpus[i] == cpu && |Distinct(cpus[..i])| < MAX_TRACES
  }

  function FirstCpus(cpus: seq<nat>): set<nat> {
    if cpus == [] then {}
    else
      var before := FirstCpus(cpus[..|cpus| - 1]);
      if |before| < MAX_TRACES then before + {cpus[|cpus| - 1]} else before
  }

  lemma {:induction false} SubsetSize(a: set<nat>, b: set<nat>)
    requires a <= b
    ensures |a| <= |b|
  {
    assert b == a + (b - a);
  }

  lemma {:induction false} DistinctLast(cpus: seq<nat>)
    requires cpus != []
    ensures Distinct(cpus) == Distinct(cpus[..|cpus| - 1]) + {cpus[|cpus| - 1]}
  {
  }

  /** All CPUs seen, as long as they are fewer than four; never more than four. */
  lemma {:induction false} FirstCpusSize(cpus: seq<nat>)
    ensures |FirstCpus(cpus)| <= MAX_TRACES && FirstCpus(cpus) <= Distinct(cpus)
    ensures |FirstCpus(cpus)| < MAX_TRACES ==> FirstCpus(cpus) == Distinct(cpus)
    decreases |cpus|
  {
    if cpus != [] {
      FirstCpusSize(cpus[..|cpus| - 1]);
      DistinctLast(cpus);
    }
  }

  lemma {:induction false} AmongFirstLast(cpus: seq<nat>, cpu: nat)
    requires cpus != []
    ensures AmongFirst(cpus, cpu) <==>
              || AmongFirst(cpus[..|cpus| - 1], cpu)
              || (cpu == cpus[|cpus| - 1] && |Distinct(cpus[..|cpus| - 1])| < MAX_TRACES)
  {
    var n := |cpus| - 1;
    forall i | 0 <= i < n ensures cpus[..n][..i] == cpus[..i] {
    }
    if AmongFirst(cpus[..n], cpu) {
      var i :| 0 <= i < n && cpus[..n][i] == cpu && |Distinct(cpus[..n][..i])| < MAX_TRACES;
      assert cpus[i] == cpu;
    }
    if AmongFirst(cpus, cpu) {
      var i :| 0 <= i < |cpus| && cpus[i] == cpu && |Distinct(cpus[..i])| < MAX_TRACES;
      assert i < n ==> cpus[..n][i] == cpu;
    }
  }

  /** The running definition agrees with the direct one. */
  lemma {:induction false} FirstCpusMeaning(cpus: seq<nat>, cpu: nat)
    ensures cpu in FirstCpus(cpus) <==> AmongFirst(cpus, cpu)
    decreases |cpus|
  {
    if cpus != [] {
      var before := cpus[..|cpus| - 1];
      FirstCpusMeaning(before, cpu);
      AmongFirstLast(cpus, cpu);
      FirstCpusSize(before);
      SubsetSize(FirstCpus(before), Distinct(before));
    }
  }

  lemma {:induction false} DistinctTracesSize(traces: seq<Trace>)
    ensures |TraceCpus(traces)| <= |traces|
    ensures (forall i :: 0 <= i < |traces| ==> !HasTrace(traces[..i], traces[i].cpu)) ==>
                |TraceCpus(traces)| == |traces|
    decreases |traces|
  {
    if traces != [] {
      var n := |traces| - 1;
      DistinctTracesSize(traces[..n]);
      assert TraceCpus(traces) == TraceCpus(traces[..n]) + {traces[n].cpu};
      forall i | 0 <= i < n ensures traces[..n][..i] == traces[..i] {
      }
      if forall i :: 0 <= i < |traces| ==> !HasTrace(traces[..i], traces[i].cpu) {
        assert !HasTrace(traces[..n], traces[n].cpu);
        assert traces[n].cpu !in TraceCpus(traces[..n]);
      }
    }
  }

  /** Evicting a repeated CPU's trace loses no CPU. */
  lemma {:induction false} EvictionKeepsCpus(traces: seq<Trace>, k: nat)
    requires k < |traces| && HasTrace(traces[..k], traces[k].cpu)
    ensures TraceCpus(traces[..k] + traces[k + 1..]) == TraceCpus(traces)
  {
    var kept := traces[..k] + traces[k + 1..];
    forall cpu | cpu in TraceCpus(traces) ensures cpu in TraceCpus(kept) {
      var i :| 0 <= i < |traces| && traces[i].cpu == cpu;
      var h :| 0 <= h < k && traces[..k][h].cpu == traces[k].cpu;
      var j := if i < k then i else if i == k then h else i - 1;
      assert kept[j].cpu == cpu;
    }
    forall cpu | cpu in TraceCpus(kept) ensures cpu in TraceCpus(traces) {
      var j :| 0 <= j < |kept| && kept[j].cpu == cpu;
      assert traces[if j < k then j else j + 1].cpu == cpu;
    }
  }

  /** Room is made without losing a CPU; with four distinct CPUs captured there is none, with fewer
      there is always room for a new CPU. */
  lemma {:induction false} RoomKeepsCpus(traces: seq<Trace>, cpu: nat)
    requires |traces| <= MAX_TRACES
    ensures var room := RoomFor(traces, cpu);
            && TraceCpus(Kept(traces, room)) == TraceCpus(traces)
            && (|TraceCpus(traces)| == MAX_TRACES ==> room.NoRoom?)
            && (|TraceCpus(traces)| < MAX_TRACES && room.NoRoom? ==> cpu in TraceCpus(traces))
  {
    var room := RoomFor(traces, cpu);
    DistinctTracesSize(traces);
    assert HasTrace(traces, cpu) <==> cpu in TraceCpus(traces);
    if room.Evict? {
      EvictionKeepsCpus(traces, room.index);
      DistinctTracesSize(Kept(traces, room));
    }
  }

  lemma {:induction false} TraceCpusAdd(traces: seq<Trace>, t: Trace)
    ensures TraceCpus(traces + [t]) == TraceCpus(traces) + {t.cpu}
  {
    var after := traces + [t];
    assert after[|traces|] == t && forall i :: 0 <= i < |traces| ==> after[i] == traces[i];
    forall cpu | cpu in TraceCpus(traces) ensures cpu in TraceCpus(after) {
      var i :| 0 <= i < |traces| && traces[i].cpu == cpu;
      assert after[i].cpu == cpu;
    }
  }

  /** One more occurrence adds its CPU if there is still room for a distinct one, and never drops any. */
  lemma {:induction false} StartCaptureCpus(traces: seq<Trace>, bytes: int, cpu: nat, line: Line)
    requires |traces| <= MAX_TRACES
    ensures var after := TraceCpus(StartCapture(traces, bytes, cpu, line).0);
            && TraceCpus(traces) <= after <= TraceCpus(traces) + {cpu}
            && (!Refused(traces, bytes, cpu, line) && |TraceCpus(traces)| < MAX_TRACES ==> cpu in after)
            && (|TraceCpus(traces)| == MAX_TRACES ==> after == TraceCpus(traces))
  {
    var room := RoomFor(traces, cpu);
    RoomKeepsCpus(traces, cpu);
    TraceCpusAdd(Kept(traces, room), Trace(cpu, [line], false));
  }

  lemma {:induction false} AppendLineCpus(traces: seq<Trace>, bytes: int, line: Line)
    ensures var after := AppendLine(traces, bytes, line).0; |after| == |traces| && TraceCpus(after) == TraceCpus(traces)
    decreases |traces|
  {
    if traces != [] {
      AppendLineCpus(traces[1..], Grow(traces[0], bytes, line).1, line);
      TraceCpusCons(traces);
      TraceCpusCons(AppendLine(traces, bytes, line).0);
    }
  }

  lemma {:induction false} TraceCpusCons(traces: seq<Trace>)
    requires traces != []
    ensures TraceCpus(traces) == {traces[0].cpu} + TraceCpus(traces[1..])
  {
    forall cpu | cpu in TraceCpus(traces) ensures cpu in {traces[0].cpu} + TraceCpus(traces[1..]) {
      var i :| 0 <= i < |traces| && traces[i].cpu == cpu;
      assert i > 0 ==> traces[1..][i - 1].cpu == cpu;
    }
    forall cpu | cpu in TraceCpus(traces[1..]) ensures cpu in TraceCpus(traces) {
      var i :| 0 <= i < |traces| - 1 && traces[1..][i].cpu == cpu;
      assert traces[i + 1].cpu == cpu;
    }
  }

  /** The line is not an occurrence on a CPU without a trace that lack of bytes turns away. */
  predicate NewCpuFits(s: Scan, line: Line) {
    var (traces, bytes) := AppendLine(s.traces, s.bytes, line);
    Accepted(line, s.baseline) && line.lockup.Some? && !HasTrace(traces, line.lockup.value.cpu) ==>
      !Refused(traces, bytes, line.lockup.value.cpu, line)
  }

  predicate NoNewCpuRefused(watermark: real, lines: seq<Line>)
    decreases |lines|
  {
    lines == [] ||
    (NoNewCpuRefused(watermark, lines[..|lines| - 1])
     && NewCpuFits(ParseLines(StartScan(watermark), lines[..|lines| - 1]), lines[|lines| - 1]))
  }

  lemma {:induction false} CaptureKeepsFirstCpus(s: Scan, line: Line, seen: seq<nat>)
    requires |s.traces| <= MAX_TRACES && TraceCpus(s.traces) == FirstCpus(seen) && NewCpuFits(s, line)
    requires Accepted(line, s.baseline) && line.lockup.Some?
    ensures TraceCpus(ParseLine(s, line).traces) == FirstCpus(seen + [line.lockup.value.cpu])
  {
    var cpu := line.lockup.value.cpu;
    var (traces, bytes) := AppendLine(s.traces, s.bytes, line);
    AppendLineCpus(s.traces, s.bytes, line);
    StartCaptureCpus(traces, bytes, cpu, line);
    FirstCpusSize(seen);
    assert (seen + [cpu])[..|seen|] == seen;
    assert HasTrace(traces, cpu) <==> cpu in TraceCpus(traces);
  }

  lemma {:induction false} OtherLineKeepsCpus(s: Scan, line: Line)
    requires !(Accepted(line, s.baseline) && line.lockup.Some?)
    ensures TraceCpus(ParseLine(s, line).traces) == TraceCpus(s.traces)
  {
    AppendLineCpus(s.traces, s.bytes, line);
  }

  lemma {:induction false} ScanSize(watermark: real, lines: seq<Line>)
    ensures var s := ParseLines(StartScan(watermark), lines); s.baseline == watermark && |s.traces| <= MAX_TRACES
  {
    var _ := ScanKeepsTracesSound(watermark, lines);
  }

  lemma {:induction false} ScanKeepsFirstCpus(watermark: real, lines: seq<Line>)
    requires NoNewCpuRefused(watermark, lines)
    ensures TraceCpus(ParseLines(StartScan(watermark), lines).traces) == FirstCpus(SeenCpus(lines, watermark))
    decreases |lines|
  {
    if lines != [] {
      var n := |lines| - 1;
      ScanKeepsFirstCpus(watermark, lines[..n]);
      ScanSize(watermark, lines[..n]);
      var s, line := ParseLines(StartScan(watermark), lines[..n]), lines[n];
      if Accepted(line, watermark) && line.lockup.Some? {
        CaptureKeepsFirstCpus(s, line, SeenCpus(lines[..n], watermark));
      } else {
        OtherLineKeepsCpus(s, line);
        assert SeenCpus(lines, watermark) == SeenCpus(lines[..n], watermark);
      }
    }
  }

  /** Within one scan, the CPUs with a trace are exactly the first four distinct CPUs, or all of them
      if there are fewer, unless a new CPU was turned away for lack of bytes. */
  lemma {:induction false} TracedCpusAreTheFirst(watermark: real, lines: seq<Line>, cpu: nat)
    requires NoNewCpuRefused(watermark, lines)
    ensures cpu in TraceCpus(ParseLines(StartScan(watermark), lines).traces)
       <==> AmongFirst(SeenCpus(lines, watermark), cpu)
  {
    ScanKeepsFirstCpus(watermark, lines);
    FirstCpusMeaning(SeenCpus(lines, watermark), cpu);
  }

  /** With or without refusals, a CPU that once has a trace keeps one. */
  lemma {:induction false} TracedCpuStaysTraced(watermark: real, lines: seq<Line>, line: Line)
    ensures TraceCpus(ParseLines(StartScan(watermark), lines).traces)
         <= TraceCpus(ParseLine(ParseLines(StartScan(watermark), lines), line).traces)
  {
    var _ := ScanKeepsTracesSound(watermark, lines);
    var s := ParseLines(StartScan(watermark), lines);
    AppendLineCpus(s.traces, s.bytes, line);
    if line.lockup.Some? {
      var (traces, bytes) := AppendLine(s.traces, s.bytes, line);
      StartCaptureCpus(traces, bytes, line.lockup.value.cpu, line);
    }
  }

  // ----- Aggregates -----

  function Occurrences(lines: seq<Line>, cpu: nat): nat {
    if lines == [] then 0
    else
      var l := lines[|lines| - 1].lockup;
      Occurrences(lines[..|lines| - 1], cpu) + if l.Some? && l.value.cpu == cpu then 1 else 0
  }

  function LongestStuck(lines: seq<Line>, cpu: nat): nat {
    if lines == [] then 0
    else
      var l, before := lines[|lines| - 1].lockup, LongestStuck(lines[..|lines| - 1], cpu);
      if l.Some? && l.value.cpu == cpu && l.value.seconds > before then l.value.seconds else before
  }

  function LastTimestamp(lines: seq<Line>, default: real): real {
    if lines == [] then default
    else if lines[|lines| - 1].timestamp.Some? then lines[|lines| - 1].timestamp.value
    else LastTimestamp(lines[..|lines| - 1], default)
  }

  function OnCpu(lines: seq<Line>, cpu: nat): seq<Line> {
    if lines == [] then []
    else
      var l := lines[|lines| - 1].lockup;
      OnCpu(lines[..|lines| - 1], cpu) + if l.Some? && l.value.cpu == cpu then [lines[|lines| - 1]] else []
  }

  ghost predicate AggregatesMatch(aggregates: map<nat, Aggregate>, accepted: seq<Line>, cpu: nat) {
    && (cpu in aggregates <==> Occurrences(accepted, cpu) > 0)
    && (cpu in aggregates ==>
          aggregates[cpu] == Aggregate(Occurrences(accepted, cpu), LongestStuck(accepted, cpu),
                                       LastTimestamp(OnCpu(accepted, cpu), 0.0)))
  }

  lemma {:induction false} NeverSeenNeverStuck(lines: seq<Line>, cpu: nat)
    requires Occurrences(lines, cpu) == 0
    ensures LongestStuck(lines, cpu) == 0
  {
    if lines != [] {
      NeverSeenNeverStuck(lines[..|lines| - 1], cpu);
    }
  }

  lemma {:induction false} EventKeepsMatch(aggregates: map<nat, Aggregate>, accepted: seq<Line>, line: Line, cpu: nat)
    requires AggregatesMatch(aggregates, accepted, cpu) && line.timestamp.Some?
    ensures var after :=
              if line.lockup.Some? then AddEvent(aggregates, line.lockup.value, line.timestamp.value) else aggregates;
            AggregatesMatch(after, accepted + [line], cpu)
  {
    var all, on := accepted + [line], OnCpu(accepted, cpu);
    assert all[..|all| - 1] == accepted && all[|all| - 1] == line;
    assert (on + [line])[|on|] == line && on + [] == on;
    if cpu !in aggregates {
      NeverSeenNeverStuck(accepted, cpu);
    }
  }

  /** The aggregates of a scan are, for each CPU, the number, the maximum and the last timestamp of the
      accepted lockup lines on it; the watermark is the timestamp of the last accepted line. */
  lemma {:induction false} ScanAggregates(watermark: real, lines: seq<Line>, cpu: nat)
    ensures var s := ParseLines(StartScan(watermark), lines);
            var accepted := AcceptedLines(lines, watermark);
            && s.baseline == watermark && s.watermark == LastTimestamp(accepted, watermark)
            && AggregatesMatch(s.aggregates, accepted, cpu)
    decreases |lines|
  {
    if lines != [] {
      var n := |lines| - 1;
      ScanAggregates(watermark, lines[..n], cpu);
      var before := AcceptedLines(lines[..n], watermark);
      assert before + [] == before;
      if Accepted(lines[n], watermark) {
        EventKeepsMatch(ParseLines(StartScan(watermark), lines[..n]).aggregates, before, lines[n], cpu);
        assert (before + [lines[n]])[|before|] == lines[n];
      }
    }
  }

  /** A scan without events has captured nothing, so nothing is left over when it is not reported. */
  lemma {:induction false} NoEventsNoTraces(watermark: real, lines: seq<Line>)
    ensures var s := ParseLines(StartScan(watermark), lines); s.aggregates == map[] ==> s.traces == [] && s.bytes == 0
    decreases |lines|
  {
    if lines != [] {
      NoEventsNoTraces(watermark, lines[..|lines| - 1]);
      var s, line := ParseLines(StartScan(watermark), lines[..|lines| - 1]), lines[|lines| - 1];
      if Accepted(line, s.baseline) && line.lockup.Some? {
        assert line.lockup.value.cpu in ParseLine(s, line).aggregates;
      }
    }
  }
}
