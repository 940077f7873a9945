/**
 * The analyzer's sequential core.
 *
 * A raw snapshot of the kernel's per-CPU counters becomes one CpuData per
 * core: total and idle time, computed, as in the source, with unsigned 64-bit
 * arithmetic that wraps modulo 2^64. Each iteration of the analyzer loop
 * compares the snapshot with the previous one (the baseline) and forwards
 * one usage record per core, or nothing when some core's total time did not
 * advance.
 *
 * The text of a snapshot is used only to count the cores; splitting it into
 * lines and reading the ten counters of each line (strtok, sscanf) are not
 * modelled: the parsed counters of the lines are an input of the step.
 */
module Analyzer {
  import opened Wrappers

  const U64_MODULUS: int := 0x1_0000_0000_0000_0000

  /** unsigned long long int */
  type U64 = x: int | 0 <= x < U64_MODULUS

  /** `a + b` on unsigned long long: wraps modulo 2^64. */
  function Add(a: U64, b: U64): U64
  {
    (a + b) % U64_MODULUS
  }

  /** `a - b` on unsigned long long: wraps modulo 2^64. */
  function Sub(a: U64, b: U64): U64
  {
    (a - b) % U64_MODULUS
  }

  /** The ten counters of one cpu line, in the kernel's order. */
  datatype Counters = Counters(
    user: U64, nice: U64, system: U64, idle: U64, ioWait: U64,
    irq: U64, softIrq: U64, steal: U64, guest: U64, guestNice: U64)

  datatype CpuData = CpuData(totalTime: U64, idleTime: U64)

  // ---------------------------------------------------------------------
  // analyze_line

  /** The total-time sum of analyze_line, in the source's order of additions. */
  function TotalTime(c: Counters): U64
  {
    var user := Sub(c.user, c.guest);
    var nice := Sub(c.nice, c.guestNice);
    Add(Add(Add(Add(Add(Add(Add(Add(Add(user, nice), c.system), c.irq), c.softIrq), c.idle), c.ioWait), c.steal), c.guest), c.guestNice)
  }

  /** Wrapping addition agrees with the exact sum modulo 2^64. */
  lemma AddCongruent(x: U64, xe: int, y: U64)
    requires x == xe % U64_MODULUS
    ensures Add(x, y) == (xe + y) % U64_MODULUS
  {
  }

  lemma AddAddCongruent(x: U64, xe: int, y: U64, ye: int)
    requires x == xe % U64_MODULUS && y == ye % U64_MODULUS
    ensures Add(x, y) == (xe + ye) % U64_MODULUS
  {
  }

  lemma SubCongruent(x: U64, xe: int, y: U64, ye: int)
    requires x == xe % U64_MODULUS && y == ye % U64_MODULUS
    ensures Sub(x, y) == (xe - ye) % U64_MODULUS
  {
  }

  /**
   * Because the guest times are subtracted from user and nice and added back,
   * the wrapped total is the sum of the eight other counters, modulo 2^64,
   * whatever wrap-arounds happen on the way.
   */
  lemma {:induction false} GuestTimeCancels(c: Counters)
    ensures TotalTime(c)
      == (c.user + c.nice + c.system + c.irq + c.softIrq + c.idle + c.ioWait + c.steal) % U64_MODULUS
  {
    var user := Sub(c.user, c.guest);
    var nice := Sub(c.nice, c.guestNice);
    var e1 := c.user - c.guest + (c.nice - c.guestNice);
    var s1 := Add(user, nice);
    assert s1 == e1 % U64_MODULUS by {
      AddAddCongruent(user, c.user - c.guest, nice, c.nice - c.guestNice);
    }
    var s2 := Add(s1, c.system);
    assert s2 == (e1 + c.system) % U64_MODULUS by { AddCongruent(s1, e1, c.system); }
    var e2 := e1 + c.system;
    var s3 := Add(s2, c.irq);
    assert s3 == (e2 + c.irq) % U64_MODULUS by { AddCongruent(s2, e2, c.irq); }
    var e3 := e2 + c.irq;
    var s4 := Add(s3, c.softIrq);
    assert s4 == (e3 + c.softIrq) % U64_MODULUS by { AddCongruent(s3, e3, c.softIrq); }
    var e4 := e3 + c.softIrq;
    var s5 := Add(s4, c.idle);
    assert s5 == (e4 + c.idle) % U64_MODULUS by { AddCongruent(s4, e4, c.idle); }
    var e5 := e4 + c.idle;
    var s6 := Add(s5, c.ioWait);
    assert s6 == (e5 + c.ioWait) % U64_MODULUS by { AddCongruent(s5, e5, c.ioWait); }
    var e6 := e5 + c.ioWait;
    var s7 := Add(s6, c.steal);
    assert s7 == (e6 + c.steal) % U64_MODULUS by { AddCongruent(s6, e6, c.steal); }
    var e7 := e6 + c.steal;
    var s8 := Add(s7, c.guest);
    assert s8 == (e7 + c.guest) % U64_MODULUS by { AddCongruent(s7, e7, c.guest); }
    var e8 := e7 + c.guest;
    var s9 := Add(s8, c.guestNice);
    assert s9 == (e8 + c.guestNice) % U64_MODULUS by { AddCongruent(s8, e8, c.guestNice); }
    assert e8 + c.guestNice == c.user + c.nice + c.system + c.irq + c.softIrq + c.idle + c.ioWait + c.steal;
    assert TotalTime(c) == s9;
  }

  /**
   * analyze_line: a missing line (NULL) gives zero times; otherwise the total
   * time is every counter except the guest times (which are already part of
   * user and nice), and the idle time is idle plus iowait, both modulo 2^64.
   */
  function AnalyzeLine(line: Option<Counters>): (r: CpuData)
    ensures line.None? ==> r == CpuData(0, 0)
    ensures line.Some? ==>
      var c := line.value;
      && r.totalTime == (c.user + c.nice + c.system + c.irq + c.softIrq + c.idle + c.ioWait + c.steal) % U64_MODULUS
      && r.idleTime == (c.idle + c.ioWait) % U64_MODULUS
  {
    match line
    case None => CpuData(0, 0)
    case Some(c) =>
      GuestTimeCancels(c);
      CpuData(TotalTime(c), Add(c.idle, c.ioWait))
  }

  // ---------------------------------------------------------------------
  // analyze_cpu_count

  /** The three characters ending at position i spell "cpu". */
  predicate CpuAt(s: string, i: int)
    requires 2 <= i < |s|
  {
    s[i - 2] == 'c' && s[i - 1] == 'p' && s[i] == 'u'
  }

  /** The number of positions i with 2 <= i < n at which "cpu" ends. */
  function CpuMatches(s: string, n: nat): nat
    requires n <= |s|
    decreases n
  {
    if n <= 2 then 0 else CpuMatches(s, n - 1) + (if CpuAt(s, n - 1) then 1 else 0)
  }

  /** What analyze_cpu_count returns: 0 for NULL, else the occurrences of "cpu". */
  function CpuCount(input: Option<string>): nat
  {
    match input
    case None => 0
    case Some(s) => CpuMatches(s, |s|)
  }

  /** The positions i with 2 <= i < n at which "cpu" ends. */
  ghost function CpuPositions(s: string, n: nat): set<int>
    requires n <= |s|
  {
    set i | 2 <= i < n && CpuAt(s, i)
  }

  /** The counting function agrees with the set of match positions. */
  lemma {:induction false} CpuMatchesArePositions(s: string, n: nat)
    requires n <= |s|
    ensures CpuMatches(s, n) == |CpuPositions(s, n)|
    decreases n
  {
    if n <= 2 {
      assert CpuPositions(s, n) == {};
    } else {
      CpuMatchesArePositions(s, n - 1);
      if CpuAt(s, n - 1) {
        assert CpuPositions(s, n) == CpuPositions(s, n - 1) + {n - 1};
      } else {
        assert CpuPositions(s, n) == CpuPositions(s, n - 1);
      }
    }
  }

  /**
   * analyze_cpu_count: scans the string (the characters before its
   * terminating NUL) and counts every position where "cpu" ends.
   */
  method AnalyzeCpuCount(input: Option<string>) returns (count: nat)
    ensures count == CpuCount(input)
    ensures input.Some? ==> count == |CpuPositions(input.value, |input.value|)|
    ensures input.None? || |input.value| < 3 ==> count == 0
  {
    if input.None? {
      return 0;
    }
    var s := input.value;
    count := 0;
    var i := 2;
    while i < |s|
      invariant 2 <= i
      invariant |s| >= 2 ==> i <= |s|
      invariant count == CpuMatches(s, if i <= |s| then i else |s|)
    {
      if s[i - 2] == 'c' && s[i - 1] == 'p' && s[i] == 'u' {
        count := count + 1;
      }
      i := i + 1;
    }
    CpuMatchesArePositions(s, |s|);
  }

  // ---------------------------------------------------------------------
  // One iteration of analyzer_thread

  /** One forwarded value: the percentage is busy / total. */
  datatype Usage = Usage(busy: U64, total: U64)

  /** The loop's state across iterations: the latched core count and the baseline. */
  datatype AnalyzerState = AnalyzerState(cpuCount: nat, previous: Option<seq<CpuData>>)

  /** The state before the first snapshot: cpu_count = 0, previous_cpu_data = NULL. */
  const Start: AnalyzerState := AnalyzerState(0, None)

  /** The i-th line token: strtok yields NULL once the lines run out. */
  function Token(lines: seq<Counters>, i: nat): Option<Counters>
  {
    if i < |lines| then Some(lines[i]) else None
  }

  /** The cpu_data array: one analyzed line per core. */
  function Samples(lines: seq<Counters>, n: nat): seq<CpuData>
  {
    seq(n, i requires 0 <= i < n => AnalyzeLine(Token(lines, i)))
  }

  /** Per-core wrapped differences: total_time_diff, and busy = total_time_diff - idle_time_diff. */
  function UsageOf(cur: CpuData, prev: CpuData): (r: Usage)
    ensures r.total == (cur.totalTime - prev.totalTime) % U64_MODULUS
    ensures r.busy == ((cur.totalTime - prev.totalTime) - (cur.idleTime - prev.idleTime)) % U64_MODULUS
    ensures r.total == 0 <==> cur.totalTime == prev.totalTime
  {
    var totalDiff := Sub(cur.totalTime, prev.totalTime);
    var idleDiff := Sub(cur.idleTime, prev.idleTime);
    SubCongruent(totalDiff, cur.totalTime - prev.totalTime, idleDiff, cur.idleTime - prev.idleTime);
    Usage(Sub(totalDiff, idleDiff), totalDiff)
  }

  /** Some core's total time did not advance (modulo 2^64). */
  predicate Stalled(cur: seq<CpuData>, prev: seq<CpuData>)
    requires |cur| <= |prev|
  {
    exists i :: 0 <= i < |cur| && Sub(cur[i].totalTime, prev[i].totalTime) == 0
  }

  /**
   * The delta loop as written: for each of the |cur| cores it reads the
   * baseline entry of the same core, so it needs a baseline at least that
   * long. The interval is forwarded only when no core stalled.
   */
  function Interval(cur: seq<CpuData>, prev: seq<CpuData>): (r: Option<seq<Usage>>)
    requires |cur| <= |prev|
    ensures r.Some? <==> forall i :: 0 <= i < |cur| ==> cur[i].totalTime != prev[i].totalTime
    ensures r.Some? ==> |r.value| == |cur| && forall i :: 0 <= i < |cur| ==> r.value[i] == UsageOf(cur[i], prev[i])
  {
    if Stalled(cur, prev) then None
    else Some(seq(|cur|, i requires 0 <= i < |cur| => UsageOf(cur[i], prev[i])))
  }

  /** cpu_count is recomputed from the snapshot only while it is still 0. */
  function LatchedCount(st: AnalyzerState, input: string): nat
  {
    if st.cpuCount == 0 then CpuCount(Some(input)) else st.cpuCount
  }

  /**
   * One iteration: the new state and what is forwarded to the printer queue.
   * The snapshot always becomes the new baseline. A baseline whose length is
   * not the core count (possible only when the first snapshot had no cpu
   * line) is replaced without computing deltas.
   */
  function StepSpec(st: AnalyzerState, input: string, lines: seq<Counters>): (r: (AnalyzerState, Option<seq<Usage>>))
    ensures r.1.Some? ==>
      && st.previous.Some?
      && |st.previous.value| == r.0.cpuCount
      && r.0.previous.Some?
      && |r.0.previous.value| == r.0.cpuCount
      && r.1 == Interval(r.0.previous.value, st.previous.value)
      && |r.1.value| == r.0.cpuCount
  {
    var n := LatchedCount(st, input);
    var cur := Samples(lines, n);
    var next := AnalyzerState(n, Some(cur));
    match st.previous
    case None => (next, None)
    case Some(prev) => if |prev| != n then (next, None) else (next, Interval(cur, prev))
  }

  /** The loop body of analyzer_thread, from the extracted snapshot to the forwarded result. */
  method Step(st: AnalyzerState, input: string, lines: seq<Counters>)
    returns (next: AnalyzerState, forwarded: Option<seq<Usage>>)
    ensures (next, forwarded) == StepSpec(st, input, lines)
  {
    var cpuCount := st.cpuCount;
    if cpuCount == 0 {
      cpuCount := AnalyzeCpuCount(Some(input));
    }
    var cpuData := new CpuData[cpuCount];
    var i := 0;
    while i < cpuCount
      invariant 0 <= i <= cpuCount
      invariant forall j :: 0 <= j < i ==> cpuData[j] == AnalyzeLine(Token(lines, j))
    {
      cpuData[i] := AnalyzeLine(Token(lines, i));
      i := i + 1;
    }
    var cur := cpuData[..];
    assert cur == Samples(lines, cpuCount);
    next := AnalyzerState(cpuCount, Some(cur));
    if st.previous.None? || |st.previous.value| != cpuCount {
      return next, None;
    }
    var prev := st.previous.value;
    var error := false;
    var usage := new Usage[cpuCount];
    i := 0;
    while i < cpuCount
      invariant 0 <= i <= cpuCount
      invariant error <==> exists j :: 0 <= j < i && Sub(cur[j].totalTime, prev[j].totalTime) == 0
      invariant forall j :: 0 <= j < i ==> usage[j] == UsageOf(cur[j], prev[j])
      modifies usage
    {
      var totalDiff := Sub(cpuData[i].totalTime, prev[i].totalTime);
      var idleDiff := Sub(cpuData[i].idleTime, prev[i].idleTime);
      if totalDiff == 0 {
        error := true;
      }
      usage[i] := Usage(Sub(totalDiff, idleDiff), totalDiff);
      i := i + 1;
    }
    if error {
      forwarded := None;
    } else {
      assert usage[..] == seq(cpuCount, j requires 0 <= j < cpuCount => UsageOf(cur[j], prev[j]));
      forwarded := Some(usage[..]);
    }
  }

  // ---------------------------------------------------------------------
  // Properties of one iteration

  /** Once nonzero, the core count never changes; while it is 0 it is recounted. */
  lemma StepLatchesCount(st: AnalyzerState, input: string, lines: seq<Counters>)
    ensures StepSpec(st, input, lines).0.cpuCount == if st.cpuCount == 0 then CpuCount(Some(input)) else st.cpuCount
  {
  }

  /** The first snapshot only becomes the baseline: nothing is forwarded. */
  lemma FirstSnapshotIsBaseline(st: AnalyzerState, input: string, lines: seq<Counters>)
    requires st.previous.None?
    ensures StepSpec(st, input, lines).1.None?
    ensures StepSpec(st, input, lines).0.previous == Some(Samples(lines, LatchedCount(st, input)))
  {
  }

  /** Forwarded or not, the baseline is replaced by the current samples. */
  lemma BaselineAlwaysReplaced(st: AnalyzerState, input: string, lines: seq<Counters>)
    ensures var (next, _) := StepSpec(st, input, lines);
      && next.previous.Some?
      && |next.previous.value| == next.cpuCount
      && forall i :: 0 <= i < next.cpuCount ==> next.previous.value[i] == AnalyzeLine(Token(lines, i))
  {
  }

  /**
   * All or nothing: after a baseline of the right length, a result is
   * forwarded iff every core's wrapped total-time difference is nonzero, and
   * then it has one entry per core, in core order.
   */
  lemma AllOrNothing(st: AnalyzerState, input: string, lines: seq<Counters>)
    requires st.previous.Some? && |st.previous.value| == LatchedCount(st, input)
    ensures var n := LatchedCount(st, input);
      var cur := Samples(lines, n);
      var prev := st.previous.value;
      var out := StepSpec(st, input, lines).1;
      && (out.Some? <==> forall i :: 0 <= i < n ==> Sub(cur[i].totalTime, prev[i].totalTime) != 0)
      && (out.Some? ==> |out.value| == n && forall i :: 0 <= i < n ==> out.value[i] == UsageOf(cur[i], prev[i]))
  {
  }

  /**
   * A baseline whose length differs from the latched core count is replaced
   * by the current samples and nothing is forwarded.
   */
  lemma MismatchedBaselineRebased(st: AnalyzerState, input: string, lines: seq<Counters>)
    requires st.previous.Some? && |st.previous.value| != LatchedCount(st, input)
    ensures StepSpec(st, input, lines).1.None?
    ensures StepSpec(st, input, lines).0 == AnalyzerState(LatchedCount(st, input), Some(Samples(lines, LatchedCount(st, input))))
  {
  }

  /** The baseline always has one entry per core once it exists. */
  ghost predicate Consistent(st: AnalyzerState)
  {
    st.previous.Some? ==> |st.previous.value| == st.cpuCount
  }

  lemma StepKeepsConsistent(st: AnalyzerState, input: string, lines: seq<Counters>)
    ensures Consistent(StepSpec(st, input, lines).0)
    ensures StepSpec(st, input, lines).1.Some? ==> |StepSpec(st, input, lines).1.value| == StepSpec(st, input, lines).0.cpuCount
  {
  }

  /**
   * Under normal operation (neither counter wrapped, idle advancing no more
   * than total) the busy part is the plain difference and never exceeds the
   * total, so the percentage lies in [0, 1].
   */
  lemma UsageWithoutWrap(cur: CpuData, prev: CpuData)
    requires prev.totalTime <= cur.totalTime && prev.idleTime <= cur.idleTime
    requires cur.idleTime - prev.idleTime <= cur.totalTime - prev.totalTime
    ensures UsageOf(cur, prev).total == cur.totalTime - prev.totalTime
    ensures UsageOf(cur, prev).busy == (cur.totalTime - prev.totalTime) - (cur.idleTime - prev.idleTime)
    ensures UsageOf(cur, prev).busy <= UsageOf(cur, prev).total
  {
  }

  /** The worked example: total 1000 to 1100 and idle 900 to 950 give 50 busy of 100, a usage of 0.5. */
  lemma HalfBusyExample()
    ensures UsageOf(CpuData(1100, 950), CpuData(1000, 900)) == Usage(50, 100)
  {
  }

  // ---------------------------------------------------------------------
  // Runs of the loop

  datatype Snapshot = Snapshot(text: string, lines: seq<Counters>)

  /** The final state of the loop after a run of snapshots, and everything it forwarded, in order. */
  function RunSnapshots(st: AnalyzerState, snaps: seq<Snapshot>): (AnalyzerState, seq<seq<Usage>>)
    decreases |snaps|
  {
    if snaps == [] then (st, [])
    else
      var (st', out) := StepSpec(st, snaps[0].text, snaps[0].lines);
      var (final, rest) := RunSnapshots(st', snaps[1..]);
      (final, (if out.Some? then [out.value] else []) + rest)
  }

  /**
   * Over any run: a nonzero core count is kept to the end, and every
   * forwarded result has one entry per core of that count.
   */
  lemma {:induction false} RunKeepsCount(st: AnalyzerState, snaps: seq<Snapshot>)
    requires st.cpuCount != 0
    ensures RunSnapshots(st, snaps).0.cpuCount == st.cpuCount
    ensures forall k :: 0 <= k < |RunSnapshots(st, snaps).1| ==> |RunSnapshots(st, snaps).1[k]| == st.cpuCount
    decreases |snaps|
  {
    if snaps != [] {
      var (st', out) := StepSpec(st, snaps[0].text, snaps[0].lines);
      StepKeepsConsistent(st, snaps[0].text, snaps[0].lines);
      RunKeepsCount(st', snaps[1..]);
    }
  }

  /**
   * A run forwards at most one result per snapshot; from the start state the
   * first snapshot forwards nothing, so k snapshots forward at most k - 1.
   */
  lemma {:induction false} FirstSnapshotForwardsNothing(snaps: seq<Snapshot>)
    requires snaps != []
    ensures |RunSnapshots(Start, snaps).1| <= |snaps| - 1
  {
    var (st', out) := StepSpec(Start, snaps[0].text, snaps[0].lines);
    assert out.None?;
    RunLength(st', snaps[1..]);
  }

  lemma {:induction false} RunLength(st: AnalyzerState, snaps: seq<Snapshot>)
    ensures |RunSnapshots(st, snaps).1| <= |snaps|
    decreases |snaps|
  {
    if snaps != [] {
      RunLength(StepSpec(st, snaps[0].text, snaps[0].lines).0, snaps[1..]);
    }
  }

  // ---------------------------------------------------------------------
  // The source as written, when the first snapshot has no cpu line

  /** Positions m..n-1 hold no 'u', so no "cpu" ends there. */
  lemma {:induction false} NoCpuBetween(s: string, m: nat, n: nat)
    requires 2 <= m <= n <= |s|
    requires forall i :: m <= i < n ==> s[i] != 'u'
    ensures CpuMatches(s, n) == CpuMatches(s, m)
    decreases n
  {
    if m < n {
      NoCpuBetween(s, m, n - 1);
    }
  }

  /**
   * A first snapshot without any "cpu" leaves cpu_count at 0 and stores a
   * baseline of 0 entries; a second snapshot with one complete cpu line
   * latches cpu_count = 1, and the delta loop of the source would read
   * entry 0 of that empty baseline: the precondition of Interval fails.
   */
  lemma EmptyBaselineOverrun(line: Counters)
    ensures var st1 := StepSpec(Start, "intr 0", []).0;
      && st1.previous == Some([])
      && LatchedCount(st1, "cpu0 1 2 3 4 5 6 7 8 9 10") == 1
      && !(|Samples([line], LatchedCount(st1, "cpu0 1 2 3 4 5 6 7 8 9 10"))| <= |st1.previous.value|)
  {
    var a, b := "intr 0", "cpu0 1 2 3 4 5 6 7 8 9 10";
    NoCpuBetween(a, 2, |a|);
    assert CpuMatches(b, 3) == 1;
    NoCpuBetween(b, 3, |b|);
  }
}
