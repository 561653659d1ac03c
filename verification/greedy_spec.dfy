/**
  A declarative description of the schedules SJF and SRTF produce, stated
  only in terms of the schedule itself: row k is determined by the rows
  before it. The clock idles (one unit at a time) exactly while no record is
  ready; at the first instant some record is ready the record with the least
  key (burst for SJF, remaining time for SRTF) is run, earliest in the input
  on ties; SJF runs it for its whole burst, SRTF for one unit.
 */
module GreedySpec {
  import opened Processes

  datatype Mode = NonPreemptive | Preemptive

  /** The sort key of the `available` list: `burstTime` for SJF, `remainingTime` for SRTF. */
  function Key(ps: seq<Process>, mode: Mode, prefix: seq<Slice>, j: int): int
    requires 0 <= j < |ps|
  {
    match mode
    case NonPreemptive => ps[j].burst
    case Preemptive => Remaining(ps, prefix, j)
  }

  /** Length of the row emitted for the chosen record. */
  function RunLength(ps: seq<Process>, mode: Mode, j: int): int
    requires 0 <= j < |ps|
  {
    match mode
    case NonPreemptive => ps[j].burst
    case Preemptive => 1
  }

  /** Nothing is ready at any clock value in [from, until). */
  predicate IdleUntil(ps: seq<Process>, prefix: seq<Slice>, from: int, until: int) {
    forall t, j :: from <= t < until && 0 <= j < |ps| ==> !ReadyAt(ps, prefix, t, j)
  }

  /** `s` is the row the policy emits after the rows `prefix`. */
  predicate GreedyStep(ps: seq<Process>, mode: Mode, prefix: seq<Slice>, s: Slice) {
    && s.idx < |ps|
    && PrevEnd(prefix) <= s.start
    && IdleUntil(ps, prefix, PrevEnd(prefix), s.start)
    && ReadyAt(ps, prefix, s.start, s.idx)
    && (forall j :: 0 <= j < |ps| && ReadyAt(ps, prefix, s.start, j) ==>
          && Key(ps, mode, prefix, s.idx) <= Key(ps, mode, prefix, j)
          && (j < s.idx ==> Key(ps, mode, prefix, s.idx) < Key(ps, mode, prefix, j)))
    && s.end == s.start + RunLength(ps, mode, s.idx)
  }

  /** Every row is the greedy choice after its predecessors, and every record got its burst. */
  predicate IsGreedySchedule(ps: seq<Process>, mode: Mode, out: seq<Slice>) {
    && (forall k :: 0 <= k < |out| ==> GreedyStep(ps, mode, out[..k], out[k]))
    && Complete(ps, out)
  }

  /** Greedy rows are non-empty, never overlap, and never start before their record arrives. */
  lemma GreedyChained(ps: seq<Process>, mode: Mode, out: seq<Slice>)
    requires PositiveBursts(ps)
    requires forall k :: 0 <= k < |out| ==> GreedyStep(ps, mode, out[..k], out[k])
    ensures Chained(out)
    ensures forall k :: 0 <= k < |out| ==> out[k].idx < |ps| && ps[out[k].idx].arrival <= out[k].start
  {
    forall k | 0 < k < |out|
      ensures out[k - 1].end <= out[k].start
    {
      assert GreedyStep(ps, mode, out[..k], out[k]);
      assert out[..k][k - 1] == out[k - 1];
    }
    if |out| > 0 {
      assert GreedyStep(ps, mode, out[..0], out[0]);
    }
  }

  /** Appending a greedy row to a schedule of greedy rows keeps every row greedy. */
  lemma ExtendSteps(ps: seq<Process>, mode: Mode, out: seq<Slice>, s: Slice, out': seq<Slice>)
    requires forall k :: 0 <= k < |out| ==> GreedyStep(ps, mode, out[..k], out[k])
    requires GreedyStep(ps, mode, out, s)
    requires out' == out + [s]
    ensures forall k :: 0 <= k < |out'| ==> GreedyStep(ps, mode, out'[..k], out'[k])
  {
    forall k | 0 <= k < |out'|
      ensures GreedyStep(ps, mode, out'[..k], out'[k])
    {
      if k < |out| {
        assert out'[..k] == out[..k];
      } else {
        assert out'[..k] == out;
      }
    }
  }

  /** The row after a given prefix is determined by it. */
  lemma StepUnique(ps: seq<Process>, mode: Mode, prefix: seq<Slice>, s1: Slice, s2: Slice)
    requires GreedyStep(ps, mode, prefix, s1)
    requires GreedyStep(ps, mode, prefix, s2)
    ensures s1 == s2
  {
    // Each row starts at the first instant something is ready, so the starts agree.
    assert ReadyAt(ps, prefix, s1.start, s1.idx);
    assert ReadyAt(ps, prefix, s2.start, s2.idx);
    assert s1.start == s2.start;
    // Both picks are the least key, earliest on ties, among the same ready set.
    assert ReadyAt(ps, prefix, s1.start, s2.idx);
  }

  /** Two schedules that agree before row k and are both greedy at row k agree up to and including it. */
  lemma ExtendAgreement(ps: seq<Process>, mode: Mode, a: seq<Slice>, b: seq<Slice>, k: nat)
    requires 0 < k <= |a| && k <= |b|
    requires a[..k - 1] == b[..k - 1]
    requires GreedyStep(ps, mode, a[..k - 1], a[k - 1])
    requires GreedyStep(ps, mode, b[..k - 1], b[k - 1])
    ensures a[..k] == b[..k]
  {
    StepUnique(ps, mode, a[..k - 1], a[k - 1], b[k - 1]);
    assert a[..k] == a[..k - 1] + [a[k - 1]];
    assert b[..k] == b[..k - 1] + [b[k - 1]];
  }

  lemma {:induction false} PrefixesAgree(ps: seq<Process>, mode: Mode, a: seq<Slice>, b: seq<Slice>, k: nat)
    requires forall i :: 0 <= i < |a| ==> GreedyStep(ps, mode, a[..i], a[i])
    requires forall i :: 0 <= i < |b| ==> GreedyStep(ps, mode, b[..i], b[i])
    requires k <= |a| && k <= |b|
    ensures a[..k] == b[..k]
  {
    if k > 0 {
      PrefixesAgree(ps, mode, a, b, k - 1);
      ExtendAgreement(ps, mode, a, b, k);
    }
  }

  /** A greedy row always finds work left: no proper prefix of a greedy schedule is complete. */
  lemma ProperPrefixIncomplete(ps: seq<Process>, mode: Mode, a: seq<Slice>, n: nat)
    requires IsGreedySchedule(ps, mode, a)
    requires n < |a|
    ensures !Complete(ps, a[..n])
  {
    var s := a[n];
    assert GreedyStep(ps, mode, a[..n], s);
    assert ReadyAt(ps, a[..n], s.start, s.idx);
  }

  /** The description has at most one solution: any two schedules satisfying it are equal. */
  lemma GreedyScheduleUnique(ps: seq<Process>, mode: Mode, a: seq<Slice>, b: seq<Slice>)
    requires IsGreedySchedule(ps, mode, a)
    requires IsGreedySchedule(ps, mode, b)
    ensures a == b
  {
    var n: nat := if |a| < |b| then |a| else |b|;
    PrefixesAgree(ps, mode, a, b, n);
    assert a[..|a|] == a;
    assert b[..|b|] == b;
    if n < |a| {
      ProperPrefixIncomplete(ps, mode, a, n);
    }
    if n < |b| {
      ProperPrefixIncomplete(ps, mode, b, n);
    }
  }
}
