# CPU scheduling simulator — a Dafny model of its scheduling core

The system takes a list of processes and computes a schedule under one of four policies:
- First-Come-First-Served (FCFS);
- non-preemptive Shortest Job First (SJF);
- preemptive Shortest Remaining Time First (SRTF);
- Round Robin (RR) with a time quantum.

Each process is a `pid`, an arrival time and a burst time. A schedule is a list of entries `{pid, start, end}`. From it the system computes each process's turnaround time (the end of its entry minus its arrival) and waiting time (turnaround minus burst), plus their totals.

This project models:
- the four scheduling functions of `script.js`;
- the integer part of `calculateMetrics`;
- the policy dispatch of `calculateSchedule`.

It proves what each policy guarantees about the schedule it emits. Every module is functional: immutable datatypes over `seq`, with each `while`/`forEach` loop written as a recursive function over an explicit loop state. That state is the clock, a working copy of the `remainingTime` fields, the completed counter or the queue, and the rows emitted so far.

| file | module | models |
|---|---|---|
| `wrappers.dfy` | `Wrappers` | `Option` and `Result` |
| `processes.dfy` | `Processes` | the process record, schedule rows and entries, and the bookkeeping shared by all policies (work given to a record, remaining time, chaining of rows) |
| `selection.dfy` | `Selection` | the `filter` + stable `sort` + `[0]` choice of SJF and SRTF |
| `greedy_spec.dfy` | `GreedySpec` | a declarative definition of the SJF and SRTF schedules, with a uniqueness theorem |
| `fcfs.dfy` | `FirstComeFirstServed` | `fcfs`: the stable sort by arrival and the run over the sorted records |
| `sjf.dfy` | `ShortestJobFirst` | `sjf` |
| `srtf.dfy` | `ShortestRemainingFirst` | `srtf` |
| `round_robin.dfy` | `RoundRobin` | `roundRobin` |
| `round_robin_rounds.dfy` | `RoundRobinRounds` | the order of Round Robin's turns stated round by round, without a queue, and proved equal to `roundRobin`'s schedule |
| `metrics.dfy` | `Metrics` | `calculateMetrics` without the averages, with the entry lookup as a parameter |
| `scheduler.dfy` | `Scheduler` | `calculateSchedule`, and the properties that span all policies |

Schedule rows name the record they run by its position in the array. The array is the JavaScript object the loop mutates, so a position identifies one record even when pids repeat. `Processes.ToEntries` turns rows into the public `{pid, start, end}` entries.

Two facts decide the shape of the metrics model:
- `fcfs` sorts the caller's array in place. So `calculateMetrics` reads the records in arrival order after FCFS and in input order after the other policies. `Scheduler.Records` makes that explicit.
- `calculateMetrics` looks up each pid's FIRST entry (`schedule.find`). `Metrics.Lookup` selects between that lookup and the lookup of the LAST entry, which is the process's completion. `Scheduler.CalculateSchedule` is the code as written. `Scheduler.CalculateScheduleAtCompletion` is the corrected variant; see "Findings".

## Model

| member | source | states |
|---|---|---|
| `Selection.Pick` | script.js:61-64 | Returns None exactly when no record is available. Otherwise returns an available record with the least key, and every available record before it has a strictly larger key. This is the head of the filtered, stably sorted list. |
| `Selection.PickFrom` | script.js:61-64 | The same choice restricted to positions `lo..`. This is the recursive scan behind `Pick`. |
| `FirstComeFirstServed.SortByArrival` | script.js:47 | The result is sorted by arrival, is a permutation of the input, and keeps records with equal arrival in their input order. |
| `FirstComeFirstServed.StableSortUnique` | script.js:47 | Two arrival-sorted lists whose equal-arrival groups agree are equal, so a stable sort by arrival has exactly one result. |
| `FirstComeFirstServed.SortByArrivalCharacterized` | script.js:47 | Any arrival-sorted list with the input's equal-arrival groups is what the sort returns. This matches the ECMAScript stable `Array.prototype.sort`, whatever algorithm the engine uses. |
| `FirstComeFirstServed.SortedIsFixedPoint` | script.js:47 | Sorting records that are already in arrival order leaves them unchanged. |
| `FirstComeFirstServed.RerunIsIdentical` | script.js:46-55 | The in-place sort leaves the array sorted, so running `fcfs` again on it gives the same order and the same schedule. |
| `FirstComeFirstServed.ScheduleOrder` | script.js:46-55 | One entry per process, in stable arrival order. Entry k is for sorted record k, lasts exactly that record's burst, and starts no earlier than its arrival. |
| `FirstComeFirstServed.ScheduleTiming` | script.js:48-54 | The first entry starts at max(0, arrival). Each later entry starts at max(previous end, arrival). So entries never overlap. |
| `FirstComeFirstServed.CompletionClosedForm` | script.js:48-54 | Row k ends at the largest of: the total burst of rows 0..k, and, for each j ≤ k, arrival j plus the bursts of rows j..k. The end equals one of these terms. |
| `FirstComeFirstServed.LoopRows` | script.js:49-54 | Each iteration of the `forEach` appends the FCFS row for the next record: row k runs record k, from the later of the previous row's end (0 for the first row) and the record's arrival, for its whole burst. |
| `FirstComeFirstServed.Slices` | script.js:48-54 | The loop over sorted records emits one row per record, and each row is the FCFS row that follows the rows before it. |
| `FirstComeFirstServed.Schedule` | script.js:46-55 | `fcfs` returns one entry per process. Entry k names the k-th record in stable arrival order by its pid and carries the start and end of row k. |
| `FirstComeFirstServed.RowsOnce` | script.js:49-53 | Row k runs record k, so every record gets exactly one row with exactly its burst, and no other record gets any. |
| `FirstComeFirstServed.SortKeepsDistinctPids` | script.js:47 | Sorting keeps pids distinct. |
| `GreedySpec.GreedyScheduleUnique` | script.js:58-87 | At most one schedule meets the greedy definition, for either key. This makes the definition a full specification of SJF and SRTF. |
| `ShortestJobFirst.Run` | script.js:64-69 | Running a record to completion keeps the loop invariant, lowers the total remaining work by its burst, and increases `completed` by one. |
| `ShortestJobFirst.Step` | script.js:60-70 | One loop iteration keeps the invariant. It either lowers the total remaining work, or, on an idle tick, lowers the distance from the clock to the latest arrival. This is the loop's termination measure. |
| `ShortestJobFirst.Loop` | script.js:60-71 | The loop ends with `completed` equal to the number of records and every remaining time 0. |
| `ShortestJobFirst.SlicesAreGreedy` | script.js:58-72 | The SJF schedule meets the greedy definition with burst as the key. The clock idles while nothing has arrived with work left, then runs the available record with the least burst (earliest on ties) to completion. Each record gets exactly one row. |
| `ShortestJobFirst.SlicesTiming` | script.js:61-67 | Rows never overlap. Each row starts no earlier than its record's arrival and lasts exactly its burst. |
| `ShortestJobFirst.Schedule` | script.js:58-72 | `sjf` returns one entry per row of the run. Entry k names row k's record by its pid and carries row k's start and end. |
| `ShortestRemainingFirst.Tick` | script.js:80-84 | Running the chosen record for one unit keeps the invariant and lowers the total remaining work by 1. `completed` rises exactly when that record's remaining time reaches 0. |
| `ShortestRemainingFirst.Step` | script.js:76-85 | One iteration keeps the invariant and lowers the total remaining work, or on an idle tick the distance to the latest arrival. |
| `ShortestRemainingFirst.Loop` | script.js:76-86 | The loop ends with every record completed and every remaining time 0. |
| `ShortestRemainingFirst.SlicesAreGreedy` | script.js:74-87 | The SRTF schedule meets the greedy definition with remaining time as the key. Each row runs the available record with the least remaining time (earliest on ties), and each record gets exactly as many rows as its burst. |
| `ShortestRemainingFirst.SlicesTiming` | script.js:77-83 | Every row spans exactly one time unit. Rows never overlap and never start before their record arrives. |
| `ShortestRemainingFirst.Schedule` | script.js:74-87 | `srtf` returns one entry per row of the run. Entry k names row k's record by its pid and carries row k's start and end, and every entry lasts exactly one time unit, since each tick records one unit. |
| `RoundRobin.Requeue` | script.js:92-97 | When the head has more than a quantum left: the new queue is the old queue without its head, followed by the head. Only the head's remaining time changes, dropping by exactly the quantum. One row is appended, running the head over [time, time + quantum). The clock advances by the quantum. The queue still holds exactly the records with work left, each once. |
| `RoundRobin.Finish` | script.js:92-101 | Otherwise the head leaves: the new queue is the old queue without its head, the others keeping their order. The head's remaining time becomes 0 and no other record's changes. One row is appended, running the head from the current time for exactly what it had left. The clock advances by that amount. |
| `RoundRobin.Step` | script.js:91-102 | One iteration keeps the invariant and lowers the total remaining work, the loop's termination measure. |
| `RoundRobin.Loop` | script.js:91-103 | The loop ends with an empty queue and every remaining time 0. |
| `RoundRobin.SlicesProperties` | script.js:89-105 | Every row runs a record that still has work, for min(quantum, remaining), which is positive. Rows follow each other back to back from time 0, whatever the arrival times. Every record gets exactly its burst. The final clock is the total burst. |
| `RoundRobin.RequeuedIffMoreThanQuantum` | script.js:93-101 | A record has another row after row k if and only if it had more than a quantum left when row k started. |
| `RoundRobinRounds.RoundSteps` | script.js:91-102 | One pass over the queue at the start of a round turns it into the start of the next round. At the start of round r the queue holds, in input order, the records whose burst exceeds r quanta, and each has its burst minus r quanta left. The pass emits that round's turns in queue order. |
| `RoundRobinRounds.RoundByRoundIsLoop` | script.js:91-103 | Running the loop round by round from the start of a round ends in the same state as running it iteration by iteration. |
| `RoundRobinRounds.SlicesFollowRounds` | script.js:89-105 | The Round Robin schedule is rounds 0, 1, 2, … laid end to end from time 0. Round r runs, in input order, every record whose burst exceeds r quanta, for min(quantum, burst − r·quantum). This is an independent description of the FIFO order of the queue. |
| `RoundRobinRounds.FifoExample` | script.js:92-97 | With quantum 2, records of burst 3 and 1 run as [0, 2) for the first, [2, 3) for the second, then [3, 4) for the first. The requeued record goes behind the one waiting. |
| `RoundRobin.Schedule` | script.js:89-105 | `roundRobin` returns one entry per row of the run. Entry k names row k's record by its pid and carries row k's start and end. |
| `RoundRobin.OneTurnEach` | script.js:90-102 | When no burst exceeds the quantum, there is one row per record, in input order. |
| `Metrics.FirstEnd` | script.js:31 | `schedule.find(s => s.pid === pid).end`: None exactly when the pid has no entry, otherwise the end of its earliest entry. |
| `Metrics.LastEnd` | script.js:31 | The corrected lookup: None exactly when the pid has no entry, otherwise the end of its latest entry. |
| `Metrics.EndOf` | script.js:31 | Either lookup returns the end of one of the pid's entries, and fails only when the pid has none. |
| `Metrics.MeasureOne` | script.js:31-32 | Turnaround is the looked-up end minus the arrival. Waiting is turnaround minus burst. |
| `Metrics.Compute` | script.js:29-35 | Succeeds exactly when every process has an entry, measuring each process in order. Otherwise it fails on the first process without one, where reading `.end` of `undefined` throws. Totals are the sums of the per-process values. |
| `Metrics.CalculateMetrics` | script.js:28-35 | Succeeds exactly when every process has an entry. Then there is one metrics row per process, in order, carrying its pid. Its turnaround is the end of the FIRST entry with that pid minus the arrival, and its waiting time is the turnaround minus the burst. |
| `Metrics.CalculateMetricsAtCompletion` | script.js:28-35 | The corrected metrics: the same, except that turnaround runs to the end of the LAST entry with the pid. |
| `Metrics.TotalsRelation` | script.js:32-34 | Total waiting equals total turnaround minus total burst. |
| `Scheduler.Records` | script.js:47 | The records the metrics read are a permutation of the input: sorted by FCFS, untouched by the others. |
| `Scheduler.Dispatch` | script.js:122-125 | Whichever function the selector picks, the schedule has one entry per row of that policy. Each entry names the row's record by its pid, over the records as the run left them (sorted by arrival under FCFS), and carries the row's start and end. |
| `Scheduler.CalculateSchedule` | script.js:118-128 | Fails exactly on an empty process list, the early return. Otherwise the schedule is the dispatched one, the records are those the run left, and the report is `calculateMetrics` over that schedule and those records. |
| `Scheduler.CalculateScheduleAtCompletion` | script.js:118-128 | The corrected run: the same, with the report computed by the last-entry metrics. |
| `Scheduler.Simulate` | script.js:118-128 | Fails exactly on an empty process list. Otherwise there is one metrics row per record, in the records' order after the run, and total waiting equals total turnaround minus total burst. |
| `Scheduler.SimulateRows` | script.js:122-128 | The run's schedule is the chosen policy's rows named by pid, and its metrics are computed over that schedule. |
| `Scheduler.BurstConserved` | script.js:46-105 | For every policy the schedule conserves bursts (`ConservesBursts`): entries are non-empty, never overlap and start at time 0 or later; the durations of each process's entries sum to its burst; and each entry names an input process. |
| `Scheduler.ArrivalRespected` | script.js:46-87 | Under FCFS, SJF and SRTF, with distinct pids, no entry of a process starts before it arrives. |
| `Scheduler.SharedPidRunsBeforeArrival` | script.js:46-55 | Without distinct pids that fails: under FCFS the records {pid 1, arrival 10, burst 1} and {pid 1, arrival 0, burst 1} give pid 1 an entry starting at 0, before the first record arrives. |
| `Scheduler.RoundRobinIgnoresArrival` | script.js:89-99 | Round Robin can start a process before it arrives: one process arriving at 5 runs from 0. |
| `Scheduler.WholeBurstPoliciesWaitNonNegative` | script.js:28-35 | Under FCFS and SJF, with distinct pids, every waiting time is non-negative and every turnaround is at least the burst, with the first-entry lookup as written. |
| `Scheduler.CompletionPoliciesWaitNonNegative` | script.js:28-35 | Measured to each process's completion (its last entry), waiting is non-negative and turnaround is at least the burst under every policy, with distinct pids. For Round Robin this needs all arrivals at or before 0. Under FCFS bursts may be zero or negative. |
| `Scheduler.FirstEntryWaitingNegative` | script.js:31 | As written, Round Robin with quantum 1 on the single process {pid 1, arrival 0, burst 2} reports turnaround 1 and waiting −1. |
| `Scheduler.FirstEntryWaitingNegativeSrtf` | script.js:31 | As written, SRTF on the same process reports turnaround 1 and waiting −1. |
| `Scheduler.InOrderUnique` | script.js:49-54 | At most one schedule runs the records once each, in order, back to back from time 0. |
| `Scheduler.RoundRobinMatchesFcfs` | script.js:89-105 | When the records are in arrival order, all arrivals are at or before 0, and no burst exceeds the quantum, Round Robin and FCFS emit the same schedule and report the same metrics. |

## Left out

- The event listener that shows the quantum field (script.js:1-3): UI only.
- `parseInput` (script.js:5-26): DOM reads, `alert`, and JavaScript's lenient `parseInt`. The model starts from integer records. An empty list stands for the early return at line 120 and becomes `Failure(EmptyInput)`.
- The averages and their display (script.js:37-43): floating-point division, `toFixed(2)` and `innerHTML`. Only the integer totals they are computed from are modelled.
- `displayGanttChart` (script.js:107-116): DOM rendering only.
- The DOM reads in `calculateSchedule` (script.js:121, 125): the algorithm is an explicit `Policy` value. So a selector value outside the four names, which falls through to Round Robin, is not modelled. Neither is a `NaN` quantum from an empty field.
- Non-positive bursts and quantum: with a zero or negative burst, SJF and SRTF never reach `completed === processes.length` (script.js:60-61, 76-77), so those inputs diverge. With a quantum ≤ 0, Round Robin never empties its queue once a record has more than the quantum left. `Scheduler.Modelled` excludes these inputs instead of modelling the divergence. FCFS has no such requirement.
- Round Robin with a positive quantum and a burst of 0 or less: the loop does end. Such a record gets one entry of that zero or negative length (script.js:98-100) and leaves the queue. The Round Robin model requires positive bursts and does not cover this case.
- JavaScript numbers: arrivals, bursts, times and sums are unbounded integers here. In the source they are doubles, so above 2^53 `time++` (script.js:62, 78) stops advancing and sums round. The model assumes every value and running sum stays within ±2^53.
- The engine's sort algorithm: FCFS's sort is modelled as a stable insertion sort. `SortByArrivalCharacterized` shows its result is the only stable arrival order, so any stable sort gives the same result.
- Scheduler.BurstConserved: requires positive bursts for FCFS too, because the property includes that every entry is non-empty. It also requires distinct pids, because durations are summed per pid, and two records sharing a pid share a sum.
- Scheduler.ArrivalRespected: requires distinct pids, because the statement is per pid and a pid shared by two records takes the earlier record's start (`Scheduler.SharedPidRunsBeforeArrival`). The per-record fact holds without it: each row starts no earlier than its own record's arrival (`FirstComeFirstServed.ScheduleOrder`, `ShortestJobFirst.SlicesTiming`, `ShortestRemainingFirst.SlicesTiming`).
- Scheduler.WholeBurstPoliciesWaitNonNegative: requires distinct pids, because with a repeated pid the first-entry lookup can find the other record's entry.
- Scheduler.CompletionPoliciesWaitNonNegative: for Round Robin it requires every arrival at or before time 0. Round Robin ignores arrivals, so a process arriving late can complete before its arrival plus its burst. It also requires distinct pids, because the proof identifies a pid's last entry with the record's own last row. With a shared pid, that entry may belong to another record. Rows are chronological, so the property probably still holds, but the model does not prove it.
- SRTF's average waiting time compared with SJF's: an optimality theorem over all inputs, not a property of any one operation here. Under the first-entry lookup, SRTF's reported waiting times are not completion-based anyway.

Behaviours kept exactly as the code has them:
- The metrics use each pid's first entry, not its last; see Findings.
- Round Robin queues every process at time 0 in input order.
- Ties in SJF and SRTF go to the record earliest in the array, with no explicit secondary key.
- FCFS sorts the caller's array rather than a copy.
- An invalid quantum is not rejected with an error.

## Findings

| source | as written | input that shows it | evidently intended | confidence | as-written member | corrected member |
|---|---|---|---|---|---|---|
| script.js:31 | turnaround is measured to the end of the FIRST schedule entry with the pid (`schedule.find`) | one process {pid 1, arrival 0, burst 2} under Round Robin with quantum 1, or under SRTF: its first entry is [0, 1], so turnaround is 1 and waiting is −1 | measure to the process's completion, the end of its LAST entry, which gives turnaround 2 and waiting 0 | not executed | `Scheduler.FirstEntryWaitingNegative` | `Scheduler.CompletionPoliciesWaitNonNegative` |

Under FCFS and SJF each process has one entry, so both lookups agree there (`Scheduler.WholeBurstPoliciesWaitNonNegative`). `Scheduler.FirstEntryWaitingNegativeSrtf` shows the same input going wrong under SRTF. The corrected lookup is `Metrics.LastEnd`, used by `Scheduler.CalculateScheduleAtCompletion`.
