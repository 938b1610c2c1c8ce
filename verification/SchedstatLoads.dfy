/** What a pass over the file means for one CPU, and the aggregate over all of them. */
module SchedstatLoads {
  import opened Bits
  import opened CpuLine
  import opened Schedstat

  /** The fields of a line that updates a core. */
  function Update(line: seq<char>): Option<Fields> {
    if CPU <= line then
      var f := ParseFrom(line[3..], 0, Fields(0xFFFF_FFFF, 0));
      if f.cpuNum < MAX_CPUS then Some(f) else None
    else None
  }

  predicate Mentions(line: seq<char>, c: nat) {
    Update(line).Some? && Update(line).value.cpuNum == c
  }

  ghost predicate InRange(cores: seq<Core>) {
    forall i :: 0 <= i < |cores| ==> 0 <= cores[i].avgLoad <= FULL_LOAD
  }

  /** A line changes the core it mentions and no other. */
  lemma LineOnCore(loads: Loads, line: seq<char>, c: nat, elapsed: uint32, toMs: Milliseconds)
    requires c < MAX_CPUS
    ensures AfterLine(loads, line, elapsed, toMs).cores[c] ==
      if Mentions(line, c) then Accounted(loads.cores[c], Update(line).value.runTime, elapsed, toMs)
      else loads.cores[c]
  {
  }

  /** The run times a file reports for a CPU, in order. */
  function RunTimes(lines: seq<seq<char>>, c: nat): seq<uint64>
    decreases |lines|
  {
    if lines == [] then []
    else
      var last := lines[|lines| - 1];
      RunTimes(lines[..|lines| - 1], c) + if Mentions(last, c) then [Update(last).value.runTime] else []
  }

  function AccountedAll(core: Core, runTimes: seq<uint64>, elapsed: uint32, toMs: Milliseconds): Core
    decreases |runTimes|
  {
    if runTimes == [] then core
    else
      var n := |runTimes| - 1;
      Accounted(AccountedAll(core, runTimes[..n], elapsed, toMs), runTimes[n], elapsed, toMs)
  }

  /** After a pass a core is what the run times reported for it make of it; a core that no line
      mentions is unchanged. */
  lemma {:induction false} PassOnCore(loads: Loads, lines: seq<seq<char>>, c: nat, elapsed: uint32,
                                      toMs: Milliseconds)
    requires c < MAX_CPUS
    ensures AfterLines(EffectOf(elapsed, toMs), loads, lines).cores[c] ==
            AccountedAll(loads.cores[c], RunTimes(lines, c), elapsed, toMs)
    decreases |lines|
  {
    if lines != [] {
      var front, last := lines[..|lines| - 1], lines[|lines| - 1];
      assert lines == front + [last];
      PassOnCore(loads, front, c, elapsed, toMs);
      LastOnCore(loads, front, last, c, elapsed, toMs);
      LastRunTime(front, last, c);
      if Mentions(last, c) {
        AccountedOneMore(loads.cores[c], RunTimes(front, c), Update(last).value.runTime, elapsed, toMs);
      }
    }
  }

  lemma LastOnCore(loads: Loads, front: seq<seq<char>>, last: seq<char>, c: nat, elapsed: uint32, toMs: Milliseconds)
    requires c < MAX_CPUS
    ensures
      var before := AfterLines(EffectOf(elapsed, toMs), loads, front).cores[c];
      AfterLines(EffectOf(elapsed, toMs), loads, front + [last]).cores[c] ==
      if Mentions(last, c) then Accounted(before, Update(last).value.runTime, elapsed, toMs) else before
  {
    AfterLinesAppend(EffectOf(elapsed, toMs), loads, front, last);
    LineOnCore(AfterLines(EffectOf(elapsed, toMs), loads, front), last, c, elapsed, toMs);
  }

  lemma LastRunTime(front: seq<seq<char>>, last: seq<char>, c: nat)
    ensures RunTimes(front + [last], c) ==
            if Mentions(last, c) then RunTimes(front, c) + [Update(last).value.runTime] else RunTimes(front, c)
  {
    assert (front + [last])[..|front|] == front;
  }

  lemma AccountedOneMore(core: Core, runTimes: seq<uint64>, t: uint64, elapsed: uint32, toMs: Milliseconds)
    ensures AccountedAll(core, runTimes + [t], elapsed, toMs) ==
            Accounted(AccountedAll(core, runTimes, elapsed, toMs), t, elapsed, toMs)
  {
    assert (runTimes + [t])[..|runTimes|] == runTimes;
  }

  /** The last run time stays, and the load is that of the time since the run time before it: the
      one an earlier line reported, or the one kept from the previous pass. */
  lemma LastRunTimeCounts(core: Core, runTimes: seq<uint64>, elapsed: uint32, toMs: Milliseconds)
    requires runTimes != []
    ensures
      var n := |runTimes| - 1;
      var before := if n == 0 then core.lastRunTime else runTimes[n - 1];
      AccountedAll(core, runTimes, elapsed, toMs) ==
      Core(Load(toMs((runTimes[n] - before) % TWO64), elapsed), runTimes[n])
  {
  }

  /** The last line of a pass raises the highest CPU number or leaves it. */
  lemma LastOnHighest(loads: Loads, front: seq<seq<char>>, last: seq<char>, elapsed: uint32, toMs: Milliseconds)
    ensures
      var before, u := AfterLines(EffectOf(elapsed, toMs), loads, front).highest, Update(last);
      AfterLines(EffectOf(elapsed, toMs), loads, front + [last]).highest ==
      if u.Some? && u.value.cpuNum > before then u.value.cpuNum else before
  {
    AfterLinesAppend(EffectOf(elapsed, toMs), loads, front, last);
  }

  /** The CPU count a pass leaves behind covers every CPU mentioned... */
  lemma {:induction false} PassCountCovers(loads: Loads, lines: seq<seq<char>>, i: nat, elapsed: uint32,
                                           toMs: Milliseconds)
    requires i < |lines| && Update(lines[i]).Some?
    ensures Update(lines[i]).value.cpuNum <= AfterLines(EffectOf(elapsed, toMs), loads, lines).highest
    decreases |lines|
  {
    var front, last := lines[..|lines| - 1], lines[|lines| - 1];
    assert front + [last] == lines;
    LastOnHighest(loads, front, last, elapsed, toMs);
    if i < |front| {
      PassCountCovers(loads, front, i, elapsed, toMs);
    }
  }

  /** ...and is no higher than it has to be. */
  lemma {:induction false} PassCountReached(loads: Loads, lines: seq<seq<char>>, elapsed: uint32, toMs: Milliseconds)
    returns (i: nat)
    requires loads.highest < AfterLines(EffectOf(elapsed, toMs), loads, lines).highest
    ensures i < |lines| && Mentions(lines[i], AfterLines(EffectOf(elapsed, toMs), loads, lines).highest)
    decreases |lines|
  {
    var front, last := lines[..|lines| - 1], lines[|lines| - 1];
    assert front + [last] == lines;
    LastOnHighest(loads, front, last, elapsed, toMs);
    if !Mentions(last, AfterLines(EffectOf(elapsed, toMs), loads, lines).highest) {
      i := PassCountReached(loads, front, elapsed, toMs);
    } else {
      i := |front|;
    }
  }

  /** Loads stay within 24 bits through any pass. */
  lemma {:induction false} PassInRange(loads: Loads, lines: seq<seq<char>>, elapsed: uint32, toMs: Milliseconds)
    requires InRange(loads.cores)
    ensures InRange(AfterLines(EffectOf(elapsed, toMs), loads, lines).cores)
    decreases |lines|
  {
    if lines != [] {
      var front, last := lines[..|lines| - 1], lines[|lines| - 1];
      PassInRange(loads, front, elapsed, toMs);
      var before := AfterLines(EffectOf(elapsed, toMs), loads, front);
      forall c | 0 <= c < MAX_CPUS
        ensures 0 <= AfterLine(before, last, elapsed, toMs).cores[c].avgLoad <= FULL_LOAD
      {
        LineOnCore(before, last, c, elapsed, toMs);
        if Mentions(last, c) {
          LoadFits(toMs((Update(last).value.runTime - before.cores[c].lastRunTime) % TWO64), elapsed);
        }
      }
    }
  }

  /** A "cpu" line of up to ten numbers is accounted to the CPU that its first number names, with the
      seventh number after it, or 0 if it is missing; a CPU number of 128 or more is ignored. */
  lemma CpuLineUpdates(numbers: seq<uint64>, junk: seq<char>)
    requires 1 <= |numbers| <= 10 && Junk(junk)
    ensures
      var cpuNum := numbers[0] % 0x1_0000_0000;
      Update("cpu" + (Printed(numbers) + junk)) ==
      if cpuNum < 128 then Some(Fields(cpuNum, if |numbers| > 7 then numbers[7] else 0)) else None
  {
    var line := "cpu" + (Printed(numbers) + junk);
    assert line[3..] == Printed(numbers) + junk && line[..3] == "cpu";
    NumbersRead(numbers, junk, Fields(0xFFFF_FFFF, 0));
  }

  /** The line the kernel prints for a CPU is accounted to that CPU with its seventh statistic. */
  lemma PrintedLineUpdates(numbers: seq<uint64>)
    requires |numbers| == 10 && numbers[0] < 128
    ensures Update("cpu" + Printed(numbers)) == Some(Fields(numbers[0], numbers[7]))
  {
    var line := "cpu" + Printed(numbers);
    assert line[3..] == Printed(numbers) && line[..3] == "cpu";
    PrintedLineRoundTrip(numbers, Fields(0xFFFF_FFFF, 0));
  }

  /** Any other line, and a "cpu" line without a number, changes nothing. */
  lemma OtherLineIgnored(loads: Loads, line: seq<char>, elapsed: uint32, toMs: Milliseconds)
    requires !("cpu" <= line) || Junk(line[3..])
    ensures AfterLine(loads, line, elapsed, toMs) == loads
  {
    if "cpu" <= line {
      JunkStops(line[3..], 0, Fields(0xFFFF_FFFF, 0));
    }
  }

  /** The load for `busy` milliseconds: full when all of the interval was busy, the exact fraction
      below 2^20 milliseconds, and that of the wrapped product from there on. */
  predicate StatedLoad(load: int, busy: uint32, elapsed: uint32) {
    && (busy >= elapsed ==> load == 0xFF_FFFF)
    && (busy < elapsed && busy < 0x10_0000 ==> load == 0x1001 * (0x1000 * busy / elapsed))
    && (busy < elapsed ==> load == 0x1001 * (0x1000 * busy % 0x1_0000_0000 / elapsed))
  }

  /** What a whole pass stores for a CPU that the file reports: its last run time, and the load for
      the time since the run time before that. */
  lemma PassStoresLoad(loads: Loads, lines: seq<seq<char>>, c: nat, elapsed: uint32, toMs: Milliseconds)
    requires c < 128 && RunTimes(lines, c) != []
    ensures
      var times := RunTimes(lines, c);
      var last := times[|times| - 1];
      var before := if |times| == 1 then loads.cores[c].lastRunTime else times[|times| - 2];
      var core := AfterLines(EffectOf(elapsed, toMs), loads, lines).cores[c];
      && core.lastRunTime == last
      && StatedLoad(core.avgLoad, toMs((last - before) % 0x1_0000_0000_0000_0000), elapsed)
  {
    PassOnCore(loads, lines, c, elapsed, toMs);
    TimesStoreLoad(loads.cores[c], RunTimes(lines, c), elapsed, toMs);
  }

  lemma TimesStoreLoad(was: Core, times: seq<uint64>, elapsed: uint32, toMs: Milliseconds)
    requires times != []
    ensures
      var last := times[|times| - 1];
      var before := if |times| == 1 then was.lastRunTime else times[|times| - 2];
      var core := AccountedAll(was, times, elapsed, toMs);
      && core.lastRunTime == last
      && StatedLoad(core.avgLoad, toMs((last - before) % 0x1_0000_0000_0000_0000), elapsed)
  {
    var last := times[|times| - 1];
    var before := if |times| == 1 then was.lastRunTime else times[|times| - 2];
    LastRunTimeCounts(was, times, elapsed, toMs);
    LoadStated(toMs((last - before) % TWO64), elapsed);
  }

  lemma LoadStated(busy: uint32, elapsed: uint32)
    ensures StatedLoad(Load(busy, elapsed), busy, elapsed)
  {
    LoadValue(busy, elapsed);
    if busy < elapsed {
      LoadExactIff(busy, elapsed);
    }
  }

  /** A CPU that the file does not report keeps its entry. */
  lemma UnreportedKept(loads: Loads, lines: seq<seq<char>>, c: nat, elapsed: uint32, toMs: Milliseconds)
    requires c < 128 && RunTimes(lines, c) == []
    ensures AfterLines(EffectOf(elapsed, toMs), loads, lines).cores[c] == loads.cores[c]
  {
    PassOnCore(loads, lines, c, elapsed, toMs);
  }

  // ---------------------------------------------------------------- the aggregate

  function Sum(cores: seq<Core>): int {
    if cores == [] then 0 else Sum(cores[..|cores| - 1]) + cores[|cores| - 1].avgLoad
  }

  /** The sum counts every core once. */
  lemma {:induction false} SumSplits(a: seq<Core>, b: seq<Core>)
    ensures Sum(a + b) == Sum(a) + Sum(b)
    decreases |b|
  {
    if b == [] {
      assert a + b == a;
    } else {
      var front := b[..|b| - 1];
      assert (a + b)[..|a + b| - 1] == a + front;
      SumSplits(a, front);
    }
  }

  lemma SumOfOne(core: Core)
    ensures Sum([core]) == core.avgLoad
  {
    assert [core][..0] == [];
  }

  lemma {:induction false} SumBetween(cores: seq<Core>, low: int, high: int)
    requires forall i :: 0 <= i < |cores| ==> low <= cores[i].avgLoad <= high
    ensures low * |cores| <= Sum(cores) <= high * |cores|
  {
    if cores != [] {
      SumBetween(cores[..|cores| - 1], low, high);
    }
  }

  /** linux_sysmon_calc_aggregate_cpu: fails exactly when there is no CPU. The 32-bit sum never
      wraps, and the 8-bit counter passes every CPU. */
  method CalcAggregateCpu(state: CpuLoadState) returns (status: int, value: int)
    requires state.Valid() && state.numCpus <= MAX_CPUS && InRange(state.perCore[..])
    ensures state.numCpus == 0 ==> status == -1 && value == 0
    ensures state.numCpus != 0 ==> status == 0 && value == Sum(state.perCore[..state.numCpus]) / state.numCpus
  {
    var cpu, sum := 0, 0;
    while cpu < state.numCpus
      invariant cpu <= state.numCpus
      invariant sum == Sum(state.perCore[..cpu]) && 0 <= sum <= FULL_LOAD * cpu
    {
      assert state.perCore[..cpu + 1][..cpu] == state.perCore[..cpu];
      assert state.perCore[cpu] == state.perCore[..][cpu];
      sum := Wrap32(sum + state.perCore[cpu].avgLoad);
      cpu := (cpu + 1) % 0x100;
    }
    if cpu == 0 {
      return -1, 0;
    }
    sum := sum / cpu;
    return 0, sum;
  }

  /** The aggregate lies between any two bounds of the loads it is taken over. */
  lemma AggregateBetween(cores: seq<Core>, low: int, high: int)
    requires cores != [] && forall i :: 0 <= i < |cores| ==> low <= cores[i].avgLoad <= high
    ensures low <= Sum(cores) / |cores| <= high
  {
    var n := |cores|;
    SumBetween(cores, low, high);
    DivMonotone(low * n, Sum(cores), n);
    DivModUnique(low * n, n, low, 0);
    DivBelow(Sum(cores), n, high + 1);
  }
}
