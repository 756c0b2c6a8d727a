/** The stat aggregator: `get_cpu_stats` reduces the cumulative per-state
    tick counters of every online CPU into two running totals, all ticks and
    the "relevant" (busy) ticks. */
module CpuStats {
  import opened Word64

  /** Number of per-state counters in a CPU's `kernel_cpustat`. */
  const NR_STATS: nat := 10

  /** The kinds of CPU time the kernel accounts, in the order of the kernel's
      `enum cpu_usage_stat` (their position is the counter's index). */
  datatype StatKind =
    | User | Nice | System | Softirq | Irq | Idle | Iowait | Steal | Guest | GuestNice

  /** The index of a kind's counter inside `kernel_cpustat.cpustat`. */
  function IndexOf(k: StatKind): (i: nat)
    ensures i < NR_STATS
  {
    match k
    case User => 0
    case Nice => 1
    case System => 2
    case Softirq => 3
    case Irq => 4
    case Idle => 5
    case Iowait => 6
    case Steal => 7
    case Guest => 8
    case GuestNice => 9
  }

  /** The kind whose counter sits at `index`; the inverse of IndexOf. */
  function KindOf(index: nat): (k: StatKind)
    requires index < NR_STATS
    ensures IndexOf(k) == index
  {
    if index == 0 then User
    else if index == 1 then Nice
    else if index == 2 then System
    else if index == 3 then Softirq
    else if index == 4 then Irq
    else if index == 5 then Idle
    else if index == 6 then Iowait
    else if index == 7 then Steal
    else if index == 8 then Guest
    else GuestNice
  }

  /** The fixed classification: user, nice, system, irq, softirq and steal
      time count as busy; idle, iowait and the guest counters do not. */
  predicate IsRelevant(k: StatKind)
  {
    k in {User, Nice, System, Irq, Softirq, Steal}
  }

  /** A sample of the per-CPU counters: one row of NR_STATS counters for
      every online CPU, in the order the CPUs are visited. */
  predicate WellFormed(cpus: seq<seq<U64>>)
  {
    forall c | 0 <= c < |cpus| :: |cpus[c]| == NR_STATS
  }

  /** Sum of every counter in (a prefix of) one CPU's row, unbounded. */
  function RowTotal(row: seq<U64>): (sum: nat)
  {
    if row == [] then 0 else RowTotal(row[..|row| - 1]) + row[|row| - 1]
  }

  /** Sum of the relevant counters in (a prefix of) one CPU's row, unbounded. */
  function RowRelevant(row: seq<U64>): (sum: nat)
    requires |row| <= NR_STATS
  {
    if row == [] then 0
    else
      var i := |row| - 1;
      RowRelevant(row[..i]) + (if IsRelevant(KindOf(i)) then row[i] else 0)
  }

  /** Sum of every counter of every CPU, unbounded. */
  function Total(cpus: seq<seq<U64>>): (sum: nat)
  {
    if cpus == [] then 0 else Total(cpus[..|cpus| - 1]) + RowTotal(cpus[|cpus| - 1])
  }

  /** Sum of the relevant counters of every CPU, unbounded. */
  function Relevant(cpus: seq<seq<U64>>): (sum: nat)
    requires WellFormed(cpus)
  {
    if cpus == [] then 0 else Relevant(cpus[..|cpus| - 1]) + RowRelevant(cpus[|cpus| - 1])
  }

  /** `get_cpu_stats`: walks every CPU and every counter index, adding each
      counter into the total and, when its kind is relevant, into the relevant
      sum. Both accumulators are `unsigned long`, so the results are the true
      sums taken modulo 2^64. */
  method GetCpuStats(cpus: seq<seq<U64>>) returns (total: U64, relevant: U64)
    requires WellFormed(cpus)
    ensures total == Total(cpus) % TWO_64
    ensures relevant == Relevant(cpus) % TWO_64
  {
    total, relevant := 0, 0;
    var c := 0;
    while c < |cpus|
      invariant 0 <= c <= |cpus|
      invariant total == Total(cpus[..c]) % TWO_64
      invariant relevant == Relevant(cpus[..c]) % TWO_64
    {
      var stat := cpus[c];
      ghost var doneTotal, doneRelevant := Total(cpus[..c]), Relevant(cpus[..c]);
      var index := 0;
      while index < NR_STATS
        invariant 0 <= index <= NR_STATS
        invariant total == (doneTotal + RowTotal(stat[..index])) % TWO_64
        invariant relevant == (doneRelevant + RowRelevant(stat[..index])) % TWO_64
      {
        var current := stat[index];
        RowPrefixStep(stat, index);
        if IsRelevant(KindOf(index)) {
          AddModAbsorbs(doneRelevant + RowRelevant(stat[..index]), current);
          relevant := (relevant + current) % TWO_64;
        }
        AddModAbsorbs(doneTotal + RowTotal(stat[..index]), current);
        total := (total + current) % TWO_64;
        index := index + 1;
      }
      PrefixStep(cpus, c);
      c := c + 1;
    }
    assert cpus[..|cpus|] == cpus;
  }

  /** Extending a row prefix by one counter adds that counter to the row's
      total, and to its relevant sum when the counter's kind is relevant. */
  lemma RowPrefixStep(row: seq<U64>, k: nat)
    requires k < |row| <= NR_STATS
    ensures RowTotal(row[..k + 1]) == RowTotal(row[..k]) + row[k]
    ensures RowRelevant(row[..k + 1]) ==
      RowRelevant(row[..k]) + (if IsRelevant(KindOf(k)) then row[k] else 0)
  {
    assert row[..k + 1][..k] == row[..k];
  }

  /** Extending a prefix of the CPUs by one row adds that row's sums. */
  lemma PrefixStep(cpus: seq<seq<U64>>, c: nat)
    requires WellFormed(cpus) && c < |cpus|
    ensures Total(cpus[..c + 1]) == Total(cpus[..c]) + RowTotal(cpus[c][..NR_STATS])
    ensures Relevant(cpus[..c + 1]) == Relevant(cpus[..c]) + RowRelevant(cpus[c][..NR_STATS])
  {
    assert cpus[..c + 1][..c] == cpus[..c];
    assert cpus[c][..NR_STATS] == cpus[c];
  }

  /** Every counter that reaches the relevant sum also reaches the total. */
  lemma {:induction false} RowRelevantAtMostTotal(row: seq<U64>)
    requires |row| <= NR_STATS
    ensures RowRelevant(row) <= RowTotal(row)
  {
    if row != [] {
      RowRelevantAtMostTotal(row[..|row| - 1]);
    }
  }

  /** Unbounded, the relevant ticks never exceed the total ticks. */
  lemma {:induction false} RelevantAtMostTotal(cpus: seq<seq<U64>>)
    requires WellFormed(cpus)
    ensures Relevant(cpus) <= Total(cpus)
  {
    if cpus != [] {
      RelevantAtMostTotal(cpus[..|cpus| - 1]);
      RowRelevantAtMostTotal(cpus[|cpus| - 1]);
    }
  }

  /** Changing one counter of a row moves the row's total by the change,
      and moves its relevant sum by the change exactly when the counter's
      kind is relevant. */
  lemma {:induction false} RowCounterContribution(row: seq<U64>, i: nat, v: U64)
    requires |row| <= NR_STATS && i < |row|
    ensures RowTotal(row[i := v]) + row[i] == RowTotal(row) + v
    ensures IsRelevant(KindOf(i)) ==> RowRelevant(row[i := v]) + row[i] == RowRelevant(row) + v
    ensures !IsRelevant(KindOf(i)) ==> RowRelevant(row[i := v]) == RowRelevant(row)
  {
    var n := |row| - 1;
    var row' := row[i := v];
    if i == n {
      assert row'[..n] == row[..n];
    } else {
      assert row'[..n] == row[..n][i := v];
      RowCounterContribution(row[..n], i, v);
    }
  }

  /** The sample `cpus` with counter `i` of CPU `c` set to `v`. */
  function WithCounter(cpus: seq<seq<U64>>, c: nat, i: nat, v: U64): (updated: seq<seq<U64>>)
    requires c < |cpus| && i < |cpus[c]|
  {
    var row: seq<U64> := cpus[c][i := v];
    cpus[c := row]
  }

  /** Changing counter `i` of CPU `c` moves the total by the change, and
      moves the relevant sum by the change if and only if the counter's kind
      is relevant: idle, iowait and the guest counters add nothing to it. */
  lemma {:induction false} CounterContribution(cpus: seq<seq<U64>>, c: nat, i: nat, v: U64)
    requires WellFormed(cpus) && c < |cpus| && i < NR_STATS
    ensures WellFormed(WithCounter(cpus, c, i, v))
    ensures Total(WithCounter(cpus, c, i, v)) + cpus[c][i] == Total(cpus) + v
    ensures IsRelevant(KindOf(i)) ==>
      Relevant(WithCounter(cpus, c, i, v)) + cpus[c][i] == Relevant(cpus) + v
    ensures !IsRelevant(KindOf(i)) ==>
      Relevant(WithCounter(cpus, c, i, v)) == Relevant(cpus)
  {
    var n := |cpus| - 1;
    var cpus' := WithCounter(cpus, c, i, v);
    if c == n {
      assert cpus'[..n] == cpus[..n];
      RowCounterContribution(cpus[c], i, v);
    } else {
      assert cpus'[..n] == WithCounter(cpus[..n], c, i, v);
      CounterContribution(cpus[..n], c, i, v);
    }
  }

  /** Taking one CPU's row out of a sample lowers each sum by that row's. */
  lemma {:induction false} SumsRemoveAt(b: seq<seq<U64>>, j: nat)
    requires WellFormed(b) && j < |b|
    ensures WellFormed(b[..j] + b[j + 1..])
    ensures Total(b) == Total(b[..j] + b[j + 1..]) + RowTotal(b[j])
    ensures Relevant(b) == Relevant(b[..j] + b[j + 1..]) + RowRelevant(b[j])
    decreases |b|
  {
    var n := |b| - 1;
    var rest := b[..j] + b[j + 1..];
    if j == n {
      assert rest == b[..n];
    } else {
      var shorter := b[..n][..j] + b[..n][j + 1..];
      assert rest[..|rest| - 1] == shorter;
      assert rest[|rest| - 1] == b[n];
      SumsRemoveAt(b[..n], j);
    }
  }

  /** Removing the last row of `a` and a matching row of `b` keeps two
      reorderings of each other reorderings of each other. */
  lemma SameRowsAfterRemoval(a: seq<seq<U64>>, b: seq<seq<U64>>, j: nat)
    requires a != [] && j < |b| && b[j] == a[|a| - 1]
    requires multiset(a) == multiset(b)
    ensures multiset(a[..|a| - 1]) == multiset(b[..j] + b[j + 1..])
  {
    var n, x := |a| - 1, a[|a| - 1];
    assert a == a[..n] + [x];
    assert b == b[..j] + [x] + b[j + 1..];
    calc {
      multiset(a[..n]);
      multiset(a) - multiset{x};
      multiset(b) - multiset{x};
      multiset(b[..j]) + multiset(b[j + 1..]);
      multiset(b[..j] + b[j + 1..]);
    }
  }

  /** The order in which CPUs are visited does not matter: any reordering
      of the same rows gives the same two sums. */
  lemma {:induction false} SumsOrderIndependent(a: seq<seq<U64>>, b: seq<seq<U64>>)
    requires WellFormed(a) && WellFormed(b)
    requires multiset(a) == multiset(b)
    ensures Total(a) == Total(b)
    ensures Relevant(a) == Relevant(b)
    decreases |a|
  {
    if a != [] {
      var n := |a| - 1;
      var x := a[n];
      assert x in multiset(b) by {
        assert a == a[..n] + [x];
      }
      var j :| 0 <= j < |b| && b[j] == x;
      var rest := b[..j] + b[j + 1..];
      SameRowsAfterRemoval(a, b, j);
      SumsOrderIndependent(a[..n], rest);
      SumsRemoveAt(b, j);
    }
  }

  /** Two samples of the same CPUs in which no counter went down. */
  predicate NoCounterDecreased(before: seq<seq<U64>>, after: seq<seq<U64>>)
    requires WellFormed(before) && WellFormed(after)
  {
    |before| == |after| &&
    forall c, i | 0 <= c < |before| && 0 <= i < NR_STATS :: before[c][i] <= after[c][i]
  }

  /** Between two rows in which no counter went down, the row's relevant
      sum grows by at most what its total grows by. */
  lemma {:induction false} RowGrowth(before: seq<U64>, after: seq<U64>)
    requires |before| == |after| <= NR_STATS
    requires forall i | 0 <= i < |before| :: before[i] <= after[i]
    ensures RowTotal(before) <= RowTotal(after)
    ensures RowRelevant(before) <= RowRelevant(after)
    ensures RowRelevant(after) - RowRelevant(before) <= RowTotal(after) - RowTotal(before)
  {
    if before != [] {
      var n := |before| - 1;
      RowGrowth(before[..n], after[..n]);
    }
  }

  /** With no counter decreasing, both sums are non-decreasing and the
      relevant sum grows by at most the growth of the total. */
  lemma {:induction false} RelevantGrowthAtMostTotalGrowth(before: seq<seq<U64>>, after: seq<seq<U64>>)
    requires WellFormed(before) && WellFormed(after)
    requires NoCounterDecreased(before, after)
    ensures Total(before) <= Total(after)
    ensures Relevant(before) <= Relevant(after)
    ensures Relevant(after) - Relevant(before) <= Total(after) - Total(before)
  {
    if before != [] {
      var n := |before| - 1;
      assert NoCounterDecreased(before[..n], after[..n]);
      RelevantGrowthAtMostTotalGrowth(before[..n], after[..n]);
      RowGrowth(before[n], after[n]);
    }
  }
}
