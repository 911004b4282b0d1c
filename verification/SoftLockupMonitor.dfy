/** MonitorKernelSoftLockup as the source writes it: fields changed line by line. */
module SoftLockupMonitors {
  import opened Common
  import opened SoftLockups
  import opened SoftLockupTheorems

  class MonitorKernelSoftLockup {
    const bootId: string
    var traces: seq<Trace>
    var bytes: int
    var aggregates: map<nat, Aggregate>
    var watermark: real
    var baseline: real
    var saved: Option<(string, real)>

    ghost function Current(): Scan
      reads this
    {
      Scan(traces, bytes, aggregates, watermark, baseline)
    }

    constructor (bootId: string, saved: Option<(string, real)>, readable: bool)
      ensures this.bootId == bootId && this.saved == saved
      ensures forall m: Monitor :: m.saved == saved ==> Current() == StartScan(Restart(m, bootId, readable).watermark)
    {
      this.bootId := bootId;
      this.saved := saved;
      traces, bytes, aggregates := [], 0, map[];
      var start := 0.0;
      if readable && saved.Some? {
        var (savedId, timestamp) := saved.value;
        if savedId == UNKNOWN_BOOT_ID || bootId == UNKNOWN_BOOT_ID {
        } else if savedId == bootId {
          start := timestamp;
        }
      }
      watermark, baseline := start, start;
    }

    method AppendToTraces(line: Line)
      modifies this`traces, this`bytes
      ensures (traces, bytes) == AppendLine(old(traces), old(bytes), line)
    {
      ghost var all := AppendLine(traces, bytes, line);
      assert traces[0..] == traces;
      for i := 0 to |traces|
        invariant |traces| == |old(traces)| && traces[i..] == old(traces)[i..]
        invariant all.0 == traces[..i] + AppendLine(traces[i..], bytes, line).0
        invariant all.1 == AppendLine(traces[i..], bytes, line).1
      {
        ghost var done, left, b := traces[..i], traces[i..], bytes;
        var t := traces[i];
        if t.closed || |t.lines| >= MAX_TRACE_LINES {
        } else if bytes + |line.text| > MAX_BYTES {
          t := t.(closed := true);
        } else {
          t := t.(lines := t.lines + [line]);
          bytes := bytes + |line.text|;
        }
        traces := traces[i := t];
        FirstGrows(left, b, line, t, bytes);
        assert left[1..] == traces[i + 1..] && traces[..i + 1] == done + [t];
        ghost var rest := AppendLine(left[1..], bytes, line).0;
        assert done + ([t] + rest) == (done + [t]) + rest;
      }
      assert traces[..|traces|] + [] == traces;
    }

    lemma {:induction false} FirstGrows(left: seq<Trace>, before: int, line: Line, t: Trace, after: int)
      requires left != [] && Grow(left[0], before, line) == (t, after)
      ensures AppendLine(left, before, line).0 == [t] + AppendLine(left[1..], after, line).0
      ensures AppendLine(left, before, line).1 == AppendLine(left[1..], after, line).1
    {
    }

    method IndexOfLastRepeat() returns (last: Option<nat>)
      ensures last == LastRepeat(traces, |traces|)
    {
      var seen: set<nat> := {};
      last := None;
      for i := 0 to |traces|
        invariant last == LastRepeat(traces, i)
        invariant forall cpu :: cpu in seen <==> HasTrace(traces[..i], cpu)
      {
        if traces[i].cpu in seen {
          last := Some(i);
        }
        seen := seen + {traces[i].cpu};
        forall cpu ensures cpu in seen <==> HasTrace(traces[..i + 1], cpu) {
          assert traces[..i + 1][i] == traces[i];
          assert forall j :: 0 <= j < i ==> traces[..i + 1][j] == traces[..i][j];
        }
      }
    }

    static method SumOfLengths(lines: seq<Line>) returns (total: nat)
      ensures total == LineBytes(lines)
    {
      total := 0;
      for i := 0 to |lines|
        invariant LineBytes(lines) == total + LineBytes(lines[i..])
      {
        total := total + |lines[i].text|;
      }
    }

    method StartLogCapture(cpu: nat, line: Line)
      modifies this`traces, this`bytes
      ensures (traces, bytes) == StartCapture(old(traces), old(bytes), cpu, line)
    {
      if |traces| >= MAX_TRACES {
        if exists i :: 0 <= i < |traces| && traces[i].cpu == cpu {
          return;
        }
        var repeat := IndexOfLastRepeat();
        if repeat.None? {
          return;
        }
        var reclaimed := SumOfLengths(traces[repeat.value].lines);
        if bytes - reclaimed + |line.text| > MAX_BYTES {
          return;
        }
        traces := traces[..repeat.value] + traces[repeat.value + 1..];
        bytes := bytes - reclaimed;
      } else if bytes + |line.text| > MAX_BYTES {
        return;
      }
      traces := traces + [Trace(cpu, [line], false)];
      bytes := bytes + |line.text|;
    }

    method ParseAndAggregate(line: Line)
      modifies this
      ensures Current() == ParseLine(old(Current()), line) && saved == old(saved)
    {
      if line.timestamp.None? || line.timestamp.value <= baseline {
        return;
      }
      watermark := line.timestamp.value;
      AppendToTraces(line);
      if line.lockup.None? {
        return;
      }
      var l := line.lockup.value;
      if l.cpu !in aggregates {
        aggregates := aggregates[l.cpu := Aggregate(0, 0, 0.0)];
      }
      var a := aggregates[l.cpu];
      a := a.(count := a.count + 1,
              maxSeconds := if a.maxSeconds > l.seconds then a.maxSeconds else l.seconds,
              lastTimestamp := line.timestamp.value);
      aggregates := aggregates[l.cpu := a];
      StartLogCapture(l.cpu, line);
    }

    method ReadAndParse(lines: seq<Line>)
      modifies this
      ensures Current() == ParseLines(old(Current()), lines) && saved == old(saved)
    {
      for i := 0 to |lines|
        invariant Current() == ParseLines(old(Current()), lines[..i]) && saved == old(saved)
      {
        assert lines[..i + 1][..i] == lines[..i];
        ParseAndAggregate(lines[i]);
      }
      assert lines[..|lines|] == lines;
    }

    /** A failure to write the state file is only logged. */
    method SaveState(works: bool)
      modifies this`saved
      ensures saved == if works then Some((bootId, watermark)) else old(saved)
    {
      if works {
        saved := Some((bootId, watermark));
      }
    }

    /** One scan: what is reported is the scan's result; traces and aggregates start afresh next time. */
    method Operation(lines: seq<Line>, saveWorks: bool) returns (report: Scan)
      requires aggregates == map[] && traces == [] && bytes == 0
      modifies this
      ensures aggregates == map[] && traces == [] && bytes == 0
      ensures (Monitor(bootId, watermark, saved), report)
           == Operate(old(Monitor(bootId, watermark, saved)), lines, saveWorks)
    {
      ghost var start := watermark;
      baseline := watermark;
      assert Current() == StartScan(start);
      ReadAndParse(lines);
      ScanSize(start, lines);
      NoEventsNoTraces(start, lines);
      report := Scan(traces, bytes, aggregates, watermark, baseline);
      if aggregates != map[] {
        aggregates, traces, bytes := map[], [], 0;
      }
      if watermark != baseline {
        SaveState(saveWorks);
      }
    }
  }
}
