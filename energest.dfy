/**
 * The energest monitor: every interval it reads the cumulative time counters, reports how much of
 * each accrued since the previous reading, and keeps the new reading as the next baseline.
 *
 * energest_type_time returns a 64-bit tick count; the monitor stores it in `unsigned long`, which
 * is 32 bits on the CC13xx/CC26xx, so every stored reading is the count modulo 2^32 and every
 * delta is an unsigned (modular) subtraction.
 */
module Energest {
  import opened CInt

  /**
   * One energest_flush() and the counter reads after it: CPU, LPM, deep LPM, transmit and
   * listen, each a cumulative 64-bit tick count.
   */
  datatype Sample = Sample(cpu: nat, lpm: nat, deepLpm: nat, transmit: nat, listen: nat)

  /** The six `prev_*` statics. */
  datatype Baseline = Baseline(cpu: uint32, lpm: uint32, deepLpm: uint32,
                               tx: uint32, rx: uint32, listen: uint32)

  /** What one call prints: the six deltas and their total. */
  datatype Report = Report(deltaCpu: uint32, deltaLpm: uint32, deltaDeepLpm: uint32,
                           deltaTx: uint32, deltaRx: uint32, deltaListen: uint32,
                           totalTime: uint32)

  /** `current - prev` in 32-bit unsigned arithmetic. */
  function Delta(current: uint32, prev: uint32): (d: uint32)
    ensures (prev + d - current) % U32 == 0
  {
    ToU32(current - prev)
  }

  /**
   * The modular subtraction is exact across a wrap of the 32-bit store: as long as fewer than
   * 2^32 ticks elapse between two readings, the delta is the true elapsed count.
   */
  lemma DeltaExact(before: nat, after: nat)
    requires before <= after < before + U32
    ensures Delta(ToU32(after), ToU32(before)) == after - before
  {
    var b, a := ToU32(before), ToU32(after);
    assert before == (before / U32) * U32 + b;
    assert after == (after / U32) * U32 + a;
    if after / U32 == before / U32 {
      assert a - b == after - before;
    } else {
      assert after / U32 == before / U32 + 1;
      assert a - b + U32 == after - before;
    }
  }

  /** The reading each `prev_*` (or `current_*`) takes: RX and listen both read the listen counter. */
  function BaselineOf(s: Sample): (b: Baseline)
    ensures b.rx == b.listen
  {
    Baseline(ToU32(s.cpu), ToU32(s.lpm), ToU32(s.deepLpm), ToU32(s.transmit),
             ToU32(s.listen), ToU32(s.listen))
  }

  /** The report of an interval that ended with reading `now` against the baseline `prev`. */
  function ReportOf(prev: Baseline, now: Sample): (r: Report)
    ensures prev.rx == prev.listen ==> r.deltaRx == r.deltaListen
    ensures r.totalTime == ToU32(r.deltaCpu + r.deltaLpm + r.deltaDeepLpm)
  {
    var cur := BaselineOf(now);
    var dCpu := Delta(cur.cpu, prev.cpu);
    var dLpm := Delta(cur.lpm, prev.lpm);
    var dDeep := Delta(cur.deepLpm, prev.deepLpm);
    Report(dCpu, dLpm, dDeep, Delta(cur.tx, prev.tx), Delta(cur.rx, prev.rx),
           Delta(cur.listen, prev.listen), ToU32(dCpu + dLpm + dDeep))
  }

  /**
   * The percentage the monitor prints for one of the power modes, as an exact rational: the
   * division happens only when the total is positive, otherwise 0.
   */
  function Share(delta: uint32, total: uint32): (pct: real)
    ensures total == 0 ==> pct == 0.0
    ensures total > 0 ==> pct * (total as real) == 100.0 * (delta as real)
  {
    if total > 0 then (100.0 * delta as real) / (total as real) else 0.0
  }

  /**
   * When the three power-mode deltas do not overflow their 32-bit sum, the three printed
   * percentages add up to 100 (or are all 0 on an empty interval).
   */
  lemma SharesSumTo100(r: Report)
    requires r.totalTime == r.deltaCpu + r.deltaLpm + r.deltaDeepLpm
    ensures r.totalTime > 0 ==>
              Share(r.deltaCpu, r.totalTime) + Share(r.deltaLpm, r.totalTime)
              + Share(r.deltaDeepLpm, r.totalTime) == 100.0
    ensures r.totalTime == 0 ==>
              Share(r.deltaCpu, r.totalTime) == 0.0 && Share(r.deltaLpm, r.totalTime) == 0.0
              && Share(r.deltaDeepLpm, r.totalTime) == 0.0
  {
    if r.totalTime > 0 {
      var t := r.totalTime as real;
      var x, y, z := r.deltaCpu as real, r.deltaLpm as real, r.deltaDeepLpm as real;
      var a, b, c := Share(r.deltaCpu, r.totalTime), Share(r.deltaLpm, r.totalTime),
                     Share(r.deltaDeepLpm, r.totalTime);
      assert t == x + y + z;
      assert a * t == 100.0 * x && b * t == 100.0 * y && c * t == 100.0 * z;
      calc {
        (a + b + c) * t;
        a * t + b * t + c * t;
        100.0 * x + 100.0 * y + 100.0 * z;
        100.0 * t;
      }
      assert (a + b + c - 100.0) * t == 0.0;
    }
  }

  /**
   * On consecutive samples whose counters each advanced by fewer than 2^32 ticks, every reported
   * delta is the true number of ticks spent in that state during the interval.
   */
  lemma {:induction false} ReportIsElapsed(before: Sample, after: Sample)
    requires before.cpu <= after.cpu < before.cpu + U32
    requires before.lpm <= after.lpm < before.lpm + U32
    requires before.deepLpm <= after.deepLpm < before.deepLpm + U32
    requires before.transmit <= after.transmit < before.transmit + U32
    requires before.listen <= after.listen < before.listen + U32
    ensures ReportOf(BaselineOf(before), after).deltaCpu == after.cpu - before.cpu
    ensures ReportOf(BaselineOf(before), after).deltaLpm == after.lpm - before.lpm
    ensures ReportOf(BaselineOf(before), after).deltaDeepLpm == after.deepLpm - before.deepLpm
    ensures ReportOf(BaselineOf(before), after).deltaTx == after.transmit - before.transmit
    ensures ReportOf(BaselineOf(before), after).deltaRx == after.listen - before.listen
    ensures ReportOf(BaselineOf(before), after).deltaListen == after.listen - before.listen
  {
    DeltaExact(before.cpu, after.cpu);
    DeltaExact(before.lpm, after.lpm);
    DeltaExact(before.deepLpm, after.deepLpm);
    DeltaExact(before.transmit, after.transmit);
    DeltaExact(before.listen, after.listen);
  }

  /** The monitor process and its six `prev_*` statics. */
  class Monitor {
    var prev: Baseline

    /** RX and listen are always read from the same counter, so their baselines agree. */
    ghost predicate Valid()
      reads this
    {
      prev.rx == prev.listen
    }

    /** The statics are zero-initialised. */
    constructor()
      ensures Valid() && prev == Baseline(0, 0, 0, 0, 0, 0)
    {
      prev := Baseline(0, 0, 0, 0, 0, 0);
    }

    /** The start of the process thread: the first reading becomes the baseline. */
    method Init(now: Sample)
      modifies this
      ensures Valid() && prev == BaselineOf(now)
    {
      prev := Baseline(ToU32(now.cpu), ToU32(now.lpm), ToU32(now.deepLpm),
                       ToU32(now.transmit), ToU32(now.listen), ToU32(now.listen));
    }

    /**
     * print_energest_values: the deltas of reading `now` against the stored baseline, after
     * which every `prev_*` holds its `current_*`.
     */
    method PrintEnergestValues(now: Sample) returns (report: Report)
      requires Valid()
      modifies this
      ensures Valid()
      ensures report == ReportOf(old(prev), now)
      ensures report.deltaRx == report.deltaListen
      ensures prev == BaselineOf(now)
    {
      var currentCpu := ToU32(now.cpu);
      var currentLpm := ToU32(now.lpm);
      var currentDeepLpm := ToU32(now.deepLpm);
      var currentTx := ToU32(now.transmit);
      var currentRx := ToU32(now.listen);
      var currentListen := ToU32(now.listen);
      assert BaselineOf(now)
             == Baseline(currentCpu, currentLpm, currentDeepLpm, currentTx, currentRx, currentListen);

      var deltaCpu := ToU32(currentCpu - prev.cpu);
      var deltaLpm := ToU32(currentLpm - prev.lpm);
      var deltaDeepLpm := ToU32(currentDeepLpm - prev.deepLpm);
      var deltaTx := ToU32(currentTx - prev.tx);
      var deltaRx := ToU32(currentRx - prev.rx);
      var deltaListen := ToU32(currentListen - prev.listen);
      var totalTime := ToU32(deltaCpu as int + deltaLpm as int + deltaDeepLpm as int);

      report := Report(deltaCpu, deltaLpm, deltaDeepLpm, deltaTx, deltaRx, deltaListen, totalTime);
      prev := Baseline(currentCpu, currentLpm, currentDeepLpm, currentTx, currentRx, currentListen);
    }

    /**
     * The process thread over a finite run: the baseline is taken from the first sample before
     * the timer is started, then each expiry reports against the previous sample, so the first
     * report covers exactly the first interval.
     */
    method Run(samples: seq<Sample>) returns (reports: seq<Report>)
      requires |samples| >= 1
      modifies this
      ensures reports == ReportsOf(samples)
      ensures Valid() && prev == BaselineOf(samples[|samples| - 1])
    {
      Init(samples[0]);
      reports := [];
      var i := 1;
      assert samples[..1] == [samples[0]];
      while i < |samples|
        invariant 1 <= i <= |samples|
        invariant Valid() && prev == BaselineOf(samples[i - 1])
        invariant reports == ReportsOf(samples[..i])
      {
        var report := PrintEnergestValues(samples[i]);
        assert samples[..i + 1][..i] == samples[..i];
        reports := reports + [report];
        i := i + 1;
      }
      assert samples[..i] == samples;
    }
  }

  /** The reports of a run: one per consecutive pair of samples, each against the earlier one. */
  function ReportsOf(samples: seq<Sample>): (reports: seq<Report>)
    requires |samples| >= 1
    ensures |reports| == |samples| - 1
  {
    if |samples| == 1 then []
    else
      var n := |samples|;
      ReportsOf(samples[..n - 1]) + [ReportOf(BaselineOf(samples[n - 2]), samples[n - 1])]
  }

  /**
   * Every report of a run is the interval between two consecutive samples, and in every report
   * RX and listen agree.
   */
  lemma {:induction false} ReportsOfIntervals(samples: seq<Sample>, i: nat)
    requires i < |samples| - 1
    ensures ReportsOf(samples)[i] == ReportOf(BaselineOf(samples[i]), samples[i + 1])
    ensures ReportsOf(samples)[i].deltaRx == ReportsOf(samples)[i].deltaListen
    decreases |samples|
  {
    var n := |samples|;
    if i < n - 2 {
      ReportsOfIntervals(samples[..n - 1], i);
    }
  }
}
