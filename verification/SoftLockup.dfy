/** Soft-lockup detection over dmesg lines: a bounded set of captured traces, per-CPU aggregates
    and a timestamp watermark, as functions of the state and one more line. */
module SoftLockups {
  import opened Common

  const MAX_TRACE_LINES: nat := 50
  const MAX_TRACES: nat := 4
  const MAX_BYTES: nat := 32 * 1024

  datatype Lockup = Lockup(cpu: nat, seconds: nat)

  /** A dmesg line with what the two patterns find in it. */
  datatype Line = Line(text: string, timestamp: Option<real>, lockup: Option<Lockup>)

  datatype Trace = Trace(cpu: nat, lines: seq<Line>, closed: bool)

  datatype Aggregate = Aggregate(count: nat, maxSeconds: nat, lastTimestamp: real)

  /** The state during one scan. */
  datatype Scan = Scan(traces: seq<Trace>, bytes: int, aggregates: map<nat, Aggregate>, watermark: real, baseline: real)

  // ----- Captured traces -----

  /** Adds a line to an open trace; one that does not fit the byte budget closes it. */
  function Grow(t: Trace, bytes: int, line: Line): (Trace, int) {
    if t.closed || |t.lines| >= MAX_TRACE_LINES then (t, bytes)
    else if bytes + |line.text| > MAX_BYTES then (t.(closed := true), bytes)
    else (t.(lines := t.lines + [line]), bytes + |line.text|)
  }

  function AppendLine(traces: seq<Trace>, bytes: int, line: Line): (seq<Trace>, int)
    decreases |traces|
  {
    if traces == [] then ([], bytes)
    else
      var (first, b) := Grow(traces[0], bytes, line);
      var (rest, total) := AppendLine(traces[1..], b, line);
      ([first] + rest, total)
  }

  predicate HasTrace(traces: seq<Trace>, cpu: nat) {
    exists i :: 0 <= i < |traces| && traces[i].cpu == cpu
  }

  /** The last of the first n traces whose CPU has an earlier trace. */
  function LastRepeat(traces: seq<Trace>, n: nat): (r: Option<nat>)
    requires n <= |traces|
    ensures r.Some? ==> r.value < n && HasTrace(traces[..r.value], traces[r.value].cpu)
    ensures forall i :: (if r.Some? then r.value + 1 else 0) <= i < n ==> !HasTrace(traces[..i], traces[i].cpu)
  {
    if n == 0 then None
    else if HasTrace(traces[..n - 1], traces[n - 1].cpu) then Some(n - 1)
    else LastRepeat(traces, n - 1)
  }

  function LineBytes(lines: seq<Line>): nat {
    if lines == [] then 0 else |lines[0].text| + LineBytes(lines[1..])
  }

  function TraceBytes(traces: seq<Trace>): nat {
    if traces == [] then 0 else LineBytes(traces[0].lines) + TraceBytes(traces[1..])
  }

  /** The room an occurrence on this CPU would be given: as it is, after an eviction, or none. */
  datatype Room = AsIs | Evict(index: nat) | NoRoom

  function RoomFor(traces: seq<Trace>, cpu: nat): (r: Room)
    ensures r.Evict? ==> r.index < |traces| && HasTrace(traces[..r.index], traces[r.index].cpu)
  {
    if |traces| < MAX_TRACES then AsIs
    else if HasTrace(traces, cpu) then NoRoom
    else match LastRepeat(traces, |traces|)
      case None => NoRoom
      case Some(i) => Evict(i)
  }

  function Reclaimed(traces: seq<Trace>, room: Room): nat
    requires room.Evict? ==> room.index < |traces|
  {
    if room.Evict? then LineBytes(traces[room.index].lines) else 0
  }

  function Kept(traces: seq<Trace>, room: Room): seq<Trace>
    requires room.Evict? ==> room.index < |traces|
  {
    if room.Evict? then traces[..room.index] + traces[room.index + 1..] else traces
  }

  /** The occurrence would be captured but for the byte budget. */
  predicate Refused(traces: seq<Trace>, bytes: int, cpu: nat, line: Line) {
    var room := RoomFor(traces, cpu);
    !room.NoRoom? && bytes - Reclaimed(traces, room) + |line.text| > MAX_BYTES
  }

  function StartCapture(traces: seq<Trace>, bytes: int, cpu: nat, line: Line): (seq<Trace>, int) {
    var room := RoomFor(traces, cpu);
    if room.NoRoom? || Refused(traces, bytes, cpu, line) then (traces, bytes)
    else (Kept(traces, room) + [Trace(cpu, [line], false)], bytes - Reclaimed(traces, room) + |line.text|)
  }

  // ----- Per-CPU aggregates -----

  function AddEvent(aggregates: map<nat, Aggregate>, l: Lockup, timestamp: real): map<nat, Aggregate> {
    var before := if l.cpu in aggregates then aggregates[l.cpu] else Aggregate(0, 0, 0.0);
    aggregates[l.cpu := Aggregate(before.count + 1,
                                  if before.maxSeconds > l.seconds then before.maxSeconds else l.seconds,
                                  timestamp)]
  }

  // ----- Scanning -----

  predicate Accepted(line: Line, baseline: real) {
    line.timestamp.Some? && line.timestamp.value > baseline
  }

  function ParseLine(s: Scan, line: Line): Scan {
    if !Accepted(line, s.baseline) then s
    else
      var (traces, bytes) := AppendLine(s.traces, s.bytes, line);
      if line.lockup.None? then s.(watermark := line.timestamp.value, traces := traces, bytes := bytes)
      else
        var l := line.lockup.value;
        var (captured, total) := StartCapture(traces, bytes, l.cpu, line);
        Scan(captured, total, AddEvent(s.aggregates, l, line.timestamp.value), line.timestamp.value, s.baseline)
  }

  function ParseLines(s: Scan, lines: seq<Line>): Scan
    decreases |lines|
  {
    if lines == [] then s else ParseLine(ParseLines(s, lines[..|lines| - 1]), lines[|lines| - 1])
  }

  function StartScan(watermark: real): Scan {
    Scan([], 0, map[], watermark, watermark)
  }

  function AcceptedLines(lines: seq<Line>, baseline: real): seq<Line> {
    if lines == [] then []
    else AcceptedLines(lines[..|lines| - 1], baseline) +
         if Accepted(lines[|lines| - 1], baseline) then [lines[|lines| - 1]] else []
  }

  // ----- The watermark across scans and restarts -----

  const UNKNOWN_BOOT_ID := ""

  /** The monitor between scans; `saved` is the state file: boot ID and timestamp. */
  datatype Monitor = Monitor(bootId: string, watermark: real, saved: Option<(string, real)>)

  /** Rescans from the beginning unless the file was written during the same, known, boot. */
  function SavedTimestamp(saved: Option<(string, real)>, bootId: string): real {
    if saved.None? then 0.0
    else if saved.value.0 == UNKNOWN_BOOT_ID || bootId == UNKNOWN_BOOT_ID then 0.0
    else if saved.value.0 != bootId then 0.0
    else saved.value.1
  }

  /** A start of the agent: the boot ID as read this time, and whether the state file can be read. */
  function Restart(m: Monitor, bootId: string, readable: bool): Monitor {
    m.(bootId := bootId, watermark := if readable then SavedTimestamp(m.saved, bootId) else 0.0)
  }

  /** One run of the operation over the lines dmesg prints; the scan is reported and dropped. A new
      watermark is saved with the boot ID, unless that fails, which is only logged. */
  function Operate(m: Monitor, lines: seq<Line>, saveWorks: bool): (Monitor, Scan) {
    var s := ParseLines(StartScan(m.watermark), lines);
    (Monitor(m.bootId, s.watermark,
             if s.watermark != m.watermark && saveWorks then Some((m.bootId, s.watermark)) else m.saved), s)
  }
}
