/** The periodic reporter: the retained previous sample, the percentage of
    busy time between two samples, and the module's load/unload life cycle
    around a self-rescheduling work item. */
module CpuUsage {
  import opened Word64
  import opened CpuStats

  /** `EAGAIN` from the kernel's errno numbering. */
  const EAGAIN: int := 11

  /** `current - last` on `unsigned long`: the difference modulo 2^64. A
      counter that went down is NOT clamped to zero; it wraps. */
  function Diff(current: U64, last: U64): (d: U64)
    ensures (last + d) % TWO_64 == current
    ensures last <= current ==> d == current - last
    ensures current < last ==> d == TWO_64 - (last - current) && d > current
  {
    (current - last) % TWO_64
  }

  /** The reported load, `td > 0 ? 100 * rd / td : 0` on `unsigned long`
      (so `100 * rd` itself wraps modulo 2^64). With no ticks elapsed it is
      0; otherwise, when the busy ticks are within the elapsed ticks, it is
      at most 100 (a wrapped product only makes it smaller), and when the
      product does not overflow it is the floor of 100 * rd / td. */
  function Percentage(totalDiff: U64, relevantDiff: U64): (p: U64)
    ensures totalDiff == 0 ==> p == 0
    ensures 0 < totalDiff && relevantDiff <= totalDiff ==> p <= 100
    ensures 0 < totalDiff && relevantDiff <= totalDiff && 100 * relevantDiff < TWO_64 ==>
      p <= 100 && p * totalDiff <= 100 * relevantDiff < (p + 1) * totalDiff
  {
    if totalDiff > 0 then
      var q := ((100 * relevantDiff) % TWO_64) / totalDiff;
      QuotientBounds(totalDiff, relevantDiff, q);
      q
    else
      0
  }

  /** What Percentage needs of its quotient: it fits a word, it is at most
      100 when `rd <= td`, and without overflow it is the floor. */
  lemma QuotientBounds(td: nat, rd: nat, q: nat)
    requires 0 < td && q == ((100 * rd) % TWO_64) / td
    ensures q < TWO_64
    ensures rd <= td ==> q <= 100
    ensures rd <= td && 100 * rd < TWO_64 ==> q * td <= 100 * rd < (q + 1) * td
  {
    var product := (100 * rd) % TWO_64;
    DivAtMost(product, td);
    FloorBounds(product, td, 100);
    if rd <= td {
      MulMonotone(rd, td, 100);
      assert product <= 100 * td;
    }
  }

  /** Dividing by a positive number does not increase a natural number. */
  lemma DivAtMost(a: nat, c: nat)
    requires 0 < c
    ensures a / c <= a
  {
    var q, r := a / c, a % c;
    assert a == q * c + r && 0 <= r;
    MulMonotone(1, c, q);
  }

  /** Division of `a` by `c` is the floor, and it is at most `b` when
      `a <= b * c`. */
  lemma FloorBounds(a: nat, c: nat, b: nat)
    requires 0 < c
    ensures (a / c) * c <= a < (a / c + 1) * c
    ensures a <= b * c ==> a / c <= b
  {
    var q, r := a / c, a % c;
    assert a == q * c + r && r < c;
    assert (q + 1) * c == q * c + c;
    if a <= b * c && q > b {
      assert false;
    }
  }

  /** Every tick of the interval busy: the report is exactly 100. */
  lemma FullyBusyIsHundred(totalDiff: U64)
    requires 0 < totalDiff && 100 * totalDiff < TWO_64
    ensures Percentage(totalDiff, totalDiff) == 100
  {
    var p := Percentage(totalDiff, totalDiff);
    assert p * totalDiff <= 100 * totalDiff < (p + 1) * totalDiff;
    if p < 100 {
      MulMonotone(p + 1, 100, totalDiff);
      assert false;
    }
  }

  /** Because the differences wrap instead of clamping, a busy sum that
      went down by `drop` ticks (for example after a reset of a busy counter)
      turns a small elapsed interval into a report above 100. */
  lemma {:induction false} RelevantDropReportsAboveHundred(totalDiff: U64, current: U64, last: U64)
    requires 0 < totalDiff && current < last
    requires 100 * (last - current) + 101 * totalDiff <= TWO_64
    ensures Percentage(totalDiff, Diff(current, last)) > 100
  {
    var drop := last - current;
    var rd := Diff(current, last);
    assert rd == TWO_64 - drop;
    assert 100 * rd == 99 * TWO_64 + (TWO_64 - 100 * drop);
    ModAddMultiple(TWO_64 - 100 * drop, 99);
    assert (100 * rd) % TWO_64 == TWO_64 - 100 * drop;
    DivAtLeast(TWO_64 - 100 * drop, 101, totalDiff);
  }

  /** Between two samples of the same CPUs in which no counter went down
      and the total grew by less than 2^64, the step reports at most 100: the
      busy ticks of the interval are part of its elapsed ticks. The running
      sums themselves may have wrapped past 2^64, and `100 * td` may
      overflow. */
  lemma ReportAtMostHundred(before: seq<seq<U64>>, after: seq<seq<U64>>)
    requires WellFormed(before) && WellFormed(after)
    requires NoCounterDecreased(before, after)
    requires Total(after) - Total(before) < TWO_64
    ensures Percentage(Diff(Total(after) % TWO_64, Total(before) % TWO_64),
                       Diff(Relevant(after) % TWO_64, Relevant(before) % TWO_64)) <= 100
  {
    RelevantGrowthAtMostTotalGrowth(before, after);
    GrowthReportAtMostHundred(Total(before), Total(after), Relevant(before), Relevant(after));
  }

  /** The arithmetic core of ReportAtMostHundred: running sums whose busy
      growth is within their total growth give a report of at most 100. */
  lemma GrowthReportAtMostHundred(t0: nat, t1: nat, r0: nat, r1: nat)
    requires t0 <= t1 && r0 <= r1
    requires r1 - r0 <= t1 - t0 < TWO_64
    ensures Percentage(Diff(t1 % TWO_64, t0 % TWO_64), Diff(r1 % TWO_64, r0 % TWO_64)) <= 100
  {
    DiffOfWrapped(t0, t1);
    DiffOfWrapped(r0, r1);
  }

  /** Subtracting two running sums that were each kept modulo 2^64 gives
      their true growth, whenever that growth is below 2^64. */
  lemma DiffOfWrapped(t0: nat, t1: nat)
    requires t0 <= t1 && t1 - t0 < TWO_64
    ensures Diff(t1 % TWO_64, t0 % TWO_64) == t1 - t0
  {
    var q0, r0 := t0 / TWO_64, t0 % TWO_64;
    var q1, r1 := t1 / TWO_64, t1 % TWO_64;
    assert t0 == q0 * TWO_64 + r0 && t1 == q1 * TWO_64 + r1;
    var d := Diff(r1, r0);
    var k := q1 - q0;
    if r0 <= r1 {
      assert t1 - t0 - d == k * TWO_64;
    } else {
      assert t1 - t0 - d == (k - 1) * TWO_64;
    }
  }

  /** The module's global state: the workqueue (reduced to whether it is
      allocated), the delayed report work (reduced to whether it is queued),
      the stop flag and the retained previous sample. */
  class CpuUsageModule {
    var queueAllocated: bool
    var workPending: bool
    var shouldWorkStillRun: bool
    var lastTotal: U64
    var lastRelevant: U64

    /** Work is only ever queued on an allocated workqueue. */
    ghost predicate Valid()
      reads this
    {
      workPending ==> queueAllocated
    }

    /** The module as loaded, before its init function runs. */
    constructor ()
      ensures Valid()
      ensures !queueAllocated && !workPending && shouldWorkStillRun
      ensures lastTotal == 0 && lastRelevant == 0
    {
      queueAllocated, workPending, shouldWorkStillRun := false, false, true;
      lastTotal, lastRelevant := 0, 0;
    }

    /** `cpu_usage_init`: allocate the workqueue (its outcome is the input
        `allocSucceeds`); on failure return -EAGAIN with nothing seeded and
        nothing queued; otherwise seed the retained pair from one sample and
        queue the first report. */
    method Init(allocSucceeds: bool, cpus: seq<seq<U64>>) returns (rc: int)
      requires Valid() && !queueAllocated && WellFormed(cpus)
      modifies this
      ensures Valid()
      ensures rc == 0 <==> allocSucceeds
      ensures !allocSucceeds ==> rc == -EAGAIN && !queueAllocated && !workPending
      ensures !allocSucceeds ==> lastTotal == old(lastTotal) && lastRelevant == old(lastRelevant)
      ensures allocSucceeds ==> queueAllocated && workPending
      ensures allocSucceeds ==> lastTotal == Total(cpus) % TWO_64 && lastRelevant == Relevant(cpus) % TWO_64
      ensures shouldWorkStillRun == old(shouldWorkStillRun)
    {
      queueAllocated := allocSucceeds;
      if !queueAllocated {
        return -EAGAIN;
      }
      lastTotal, lastRelevant := GetCpuStats(cpus);
      workPending := true;
      return 0;
    }

    /** `report_work_main`, the body of the work item once it runs: take a
        sample, report the percentage of busy ticks since the retained
        sample, retain the new sample and queue itself again exactly when the
        stop flag is still set. Running it after `Exit` (the in-flight step
        the flag exists for) therefore never queues it again. */
    method ReportWorkMain(cpus: seq<seq<U64>>) returns (percent: U64)
      requires Valid() && WellFormed(cpus)
      requires shouldWorkStillRun ==> queueAllocated
      modifies this
      ensures Valid()
      ensures percent == Percentage(Diff(Total(cpus) % TWO_64, old(lastTotal)),
                                    Diff(Relevant(cpus) % TWO_64, old(lastRelevant)))
      ensures lastTotal == Total(cpus) % TWO_64 && lastRelevant == Relevant(cpus) % TWO_64
      ensures old(shouldWorkStillRun) ==> workPending
      ensures !old(shouldWorkStillRun) ==> workPending == old(workPending)
      ensures shouldWorkStillRun == old(shouldWorkStillRun) && queueAllocated == old(queueAllocated)
    {
      var total, relevant := GetCpuStats(cpus);
      var totalDiff := Diff(total, lastTotal);
      var relevantDiff := Diff(relevant, lastRelevant);
      percent := Percentage(totalDiff, relevantDiff);
      lastTotal, lastRelevant := total, relevant;
      if shouldWorkStillRun {
        workPending := true;
      }
    }

    /** `cpu_usage_exit`: clear the flag so no later step queues itself,
        cancel the pending work and free the workqueue. The retained sample
        is left as it was. */
    method Exit()
      requires Valid() && queueAllocated
      modifies this
      ensures Valid()
      ensures !shouldWorkStillRun && !workPending && !queueAllocated
      ensures lastTotal == old(lastTotal) && lastRelevant == old(lastRelevant)
    {
      shouldWorkStillRun := false;
      workPending := false;
      queueAllocated := false;
    }
  }

  /** Unloading while the report work is still running: once `Exit` has
      cleared the flag, the steps that still run, one per sample in
      `samples`, never queue the work again. */
  method ExitStopsRequeue(m: CpuUsageModule, samples: seq<seq<seq<U64>>>)
    requires m.Valid() && m.queueAllocated
    requires forall k | 0 <= k < |samples| :: WellFormed(samples[k])
    modifies m
    ensures m.Valid() && !m.shouldWorkStillRun && !m.workPending
  {
    m.Exit();
    var k := 0;
    while k < |samples|
      invariant 0 <= k <= |samples|
      invariant m.Valid() && !m.shouldWorkStillRun && !m.workPending
    {
      var percent := m.ReportWorkMain(samples[k]);
      k := k + 1;
    }
  }
}
