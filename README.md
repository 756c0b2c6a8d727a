# cpu_usage — a Dafny model of the CPU-usage reporting kernel module

`cpu_usage` is a Linux kernel module that reports the average CPU load over
all cores at a fixed period. Each report compares two samples of the kernel's
cumulative per-CPU time-in-state counters (jiffies): the busy ("relevant")
ticks elapsed since the previous sample, as a percentage of all ticks elapsed.

The model has three modules:

- `Word64` (`word64.dfy`): `unsigned long` values (`U64`, 0 ≤ x < 2^64) and
  the modular-arithmetic facts used by the other two.
- `CpuStats` (`cpu_stats.dfy`): the stat aggregator `get_cpu_stats`. A sample
  of the counters is a `seq<seq<U64>>`, with one row of `NR_STATS` counters
  for each online CPU. `StatKind` lists the counter kinds in the kernel's
  `enum cpu_usage_stat` order. `IsRelevant` is the fixed busy
  classification: user, nice, system, irq, softirq and steal. `Total` and
  `Relevant` are the unbounded sums. The method `GetCpuStats` runs the
  source's nested loops. Its accumulators wrap modulo 2^64, as the source's
  `unsigned long` sums do.
- `CpuUsage` (`cpu_usage.dfy`): the reporter. `Diff` is unsigned
  subtraction. `Percentage` is the guarded `100 * rd / td`, whose
  multiplication also wraps modulo 2^64. The class `CpuUsageModule` holds the
  module's globals: whether the workqueue is allocated, whether the report
  work is queued, `should_work_still_run`, and the retained pair
  `last_total_jiffies` / `last_relevant_jiffies`. Its methods `Init`,
  `ReportWorkMain` and `Exit` model `cpu_usage_init`, `report_work_main` and
  `cpu_usage_exit`.

Inputs the kernel supplies are parameters. The counter sample stands in for
`for_each_online_cpu` / `kcpustat_cpu`. The success of `alloc_workqueue` is
the boolean `allocSucceeds`. The value that `report_work_main` prints is
returned as `percent`.

Three behaviours one might expect of such a reporter are not in the code,
and the model follows the code:

- A counter that went down is not clamped to a difference of zero. The
  code (cpu_usage.c:69-70) uses plain unsigned subtraction, which wraps
  modulo 2^64, and `Diff` wraps the same way. What the report then shows
  depends on the sizes involved. `RelevantDropReportsAboveHundred` gives
  one case: if the busy sum went down by `d` ticks and 100·d + 101·td ≤ 2^64,
  the report is above 100. Other cases differ. When a CPU goes offline, both
  sums can drop, so the elapsed difference wraps as well, and the report can
  then come out as 0.
- Starting the module twice is not reported as an error: the code has no
  such check. The kernel calls the init function once, so `Init` requires a
  workqueue that is not yet allocated.
- A report is never skipped because sampling failed: the code has no
  failure path for sampling, and neither does the model.

## Model

| member | source | states |
|---|---|---|
| CpuStats.KindOf | cpu_usage.c:41-50 | a counter index below NR_STATS names exactly one kind, and IndexOf inverts it; with IsRelevant (the `switch` at cpu_usage.c:44-51: user, nice, system, irq, softirq, steal) it classifies every index |
| CpuStats.GetCpuStats | cpu_usage.c:31-61 | the nested loops leave in `total` the sum of every counter of every CPU, and in `relevant` the sum of only the user, nice, system, irq, softirq and steal counters, both modulo 2^64 |
| CpuStats.RelevantAtMostTotal | cpu_usage.c:44-55 | in unbounded arithmetic the relevant sum never exceeds the total, because every counter added to it is also added to the total |
| CpuStats.CounterContribution | cpu_usage.c:43-55 | changing one counter moves the total by the change; it moves the relevant sum by the change if the kind is relevant, and otherwise leaves it unchanged (idle, iowait and guest ticks add nothing) |
| CpuStats.SumsOrderIndependent | cpu_usage.c:36-56 | any reordering of the CPUs' rows gives the same total and the same relevant sum |
| CpuStats.RelevantGrowthAtMostTotalGrowth | cpu_usage.c:41-55 | between two samples of the same CPUs with no counter decreasing, both sums are non-decreasing and the relevant growth is at most the total growth |
| CpuUsage.Diff | cpu_usage.c:69-70 | the difference is the value that, added to the retained one modulo 2^64, gives the current one; it is the plain difference when nothing decreased, and it wraps to 2^64 minus the drop (never clamps to 0) when the counter went down |
| CpuUsage.Percentage | cpu_usage.c:74-75 | zero elapsed ticks report 0 whatever the busy difference; otherwise, with busy ≤ elapsed, the report p is at most 100 even when 100·busy wraps, and when 100·busy does not overflow it satisfies p·td ≤ 100·rd < (p+1)·td (the floor) |
| CpuUsage.FullyBusyIsHundred | cpu_usage.c:75 | an interval of td > 0 elapsed ticks, all of them busy, reports exactly 100, provided 100·td < 2^64 (for larger td the product wraps and the code reports something else) |
| CpuUsage.RelevantDropReportsAboveHundred | cpu_usage.c:69-75 | because the differences wrap, a busy sum that went down by d with 100·d + 101·td ≤ 2^64 reports more than 100 |
| CpuUsage.DiffOfWrapped | cpu_usage.c:69-70 | subtracting two running sums, each kept modulo 2^64, gives their true growth whenever that growth is below 2^64 |
| CpuUsage.ReportAtMostHundred | cpu_usage.c:67-75 | for two samples of the same CPUs where no counter decreased and the total grew by less than 2^64, the report lies in [0, 100], even when the running sums have wrapped past 2^64 or 100·td overflows |
| CpuUsage.CpuUsageModule.constructor | cpu_usage.c:26-29 | the module's globals at load time: no workqueue, nothing queued, the flag set, and the retained pair zero |
| CpuUsage.CpuUsageModule.Init | cpu_usage.c:87-106 | a failed allocation returns -EAGAIN with nothing seeded and nothing queued; otherwise it returns 0, seeds both retained fields from one sample and queues the work; the flag is unchanged |
| CpuUsage.CpuUsageModule.ReportWorkMain | cpu_usage.c:63-84 | the report is Percentage of the two wrapped differences between the new sample and the retained pair; the retained pair becomes the new sample; the work is queued again if and only if the flag is set, and otherwise stays as it was; the flag and the workqueue do not change |
| CpuUsage.CpuUsageModule.Exit | cpu_usage.c:108-119 | the flag is cleared, no work remains queued and the workqueue is freed, so any later step does not queue itself again; the retained pair is unchanged |
| CpuUsage.ExitStopsRequeue | cpu_usage.c:82-83 | once exit has cleared the flag (cpu_usage.c:110), any number of steps that still run, on any samples, leave no work queued and the flag cleared |

## Left out

- Workqueue mechanics (`alloc_workqueue`, `queue_delayed_work`, `cancel_delayed_work_sync`, `destroy_workqueue`) are kernel scheduling. They are reduced to the booleans `queueAllocated` and `workPending`.
- The `HZ * period` delay and the `period` module parameter are left out. They set the timing and the printed text, and no computed value depends on them.
- `Exit`: does not model the race between clearing the `volatile` flag and a step already running, nor the wait in `cancel_delayed_work_sync`. `Exit` happens atomically. A step that is still running after it is modelled by calling `ReportWorkMain` afterwards. Concurrency cannot be verified in this sequential model.
- Every value is a 64-bit `unsigned long`, as on a 64-bit kernel. On a 32-bit build, `unsigned long current_stat` (cpu_usage.c:43) truncates each 64-bit counter, and every sum, difference and `100 * rd` wraps modulo 2^32. The model does not cover that build.
- `for_each_online_cpu`, `kcpustat_cpu` and CPU hotplug are foreign kernel calls. The counter sample is an input, and the online CPUs are its rows.
- `NR_STATS` is taken as 10, the kernel's `enum cpu_usage_stat` without the `CONFIG_SCHED_CORE` force-idle counter. That header is not part of this model. Any extra counter would be non-relevant.
- `pr_info` / `pr_err` output, the print-prefix macros and the module boilerplate (cpu_usage.c:17-23, 121-125) are I/O and glue. The printed percentage is returned instead.
- `Init` requires a workqueue that is not yet allocated, and `Exit` requires one that is. The kernel runs `module_init` once per load, and runs `module_exit` only after a successful init.
