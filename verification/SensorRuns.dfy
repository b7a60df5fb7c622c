/** The sensor's timer callback, which applies the due phases, over any sequence of calls. */
module SensorRuns {
  import opened Integers
  import opened Options
  import opened SourceSchedules

  /** A line of the application record. */
  datatype Application = Application(index: nat, applied: bool, requested: int, at: int64, oldPeriod: int64, newPeriod: int64)

  /** `period` is the timer's. */
  datatype State = State(epoch: int64, next: nat, period: int64, log: seq<Application>)

  /** One call: the clock, the start file if there is one, and the clock as each record is written. */
  datatype Call = Call(now: int64, start: Option<seq<string>>, later: nat -> int64)

  predicate Fails(p: Plan, s: State, c: Call) {
    s.epoch == 0 && c.start.Some? && StartEpoch(p, c.start.value).None?
  }

  function Latched(p: Plan, s: State, c: Call): int64
    requires !Fails(p, s, c)
  {
    if s.epoch != 0 then s.epoch else if c.start.None? then 0 else StartEpoch(p, c.start.value).value
  }

  function DueCount(p: Plan, epoch: int, next: nat, now: int): (k: nat)
    ensures k == 0 || next + k <= |p.phases|
    decreases |p.phases| - next
  {
    if next < |p.phases| && now >= Requested(p, epoch, next) then 1 + DueCount(p, epoch, next + 1, now) else 0
  }

  lemma {:induction false} DueCountIsExact(p: Plan, epoch: int, next: nat, now: int)
    requires WellFormed(p)
    ensures forall i :: next <= i < |p.phases| ==> (i < next + DueCount(p, epoch, next, now) <==> Requested(p, epoch, i) <= now)
    decreases |p.phases| - next
  {
    if next < |p.phases| && now >= Requested(p, epoch, next) {
      DueCountIsExact(p, epoch, next + 1, now);
    }
  }

  /** The last due phase is applied, the ones before it are skipped. */
  function Records(p: Plan, s: State, epoch: int, k: nat, later: nat -> int64): (log: seq<Application>)
    requires k == 0 || s.next + k <= |p.phases|
    ensures |log| == k
  {
    seq(k, j requires 0 <= j < k =>
      var i := s.next + j;
      Application(i, j == k - 1, Requested(p, epoch, i), later(j), s.period, if j == k - 1 then p.phases[i].period else s.period))
  }

  /** The next `k` phases are consumed. */
  function Consume(p: Plan, s: State, epoch: int64, k: nat, later: nat -> int64): State
    requires k == 0 || s.next + k <= |p.phases|
  {
    State(epoch, s.next + k, if k == 0 then s.period else p.phases[s.next + k - 1].period,
          s.log + Records(p, s, epoch, k, later))
  }

  function Tick(p: Plan, s: State, c: Call): State {
    if Fails(p, s, c) || Latched(p, s, c) == 0 then s
    else
      var epoch := Latched(p, s, c);
      Consume(p, s, epoch, DueCount(p, epoch, s.next, c.now), c.later)
  }

  /** The sensor starts its timer with the initial period. */
  function Run(p: Plan, initial: int64, calls: seq<Call>): State {
    if |calls| == 0 then State(0, 0, initial, []) else Tick(p, Run(p, initial, calls[..|calls| - 1]), calls[|calls| - 1])
  }

  class Sensor {
    const schedule: SourceSchedule
    var period: int64
    var log: seq<Application>

    constructor (schedule: SourceSchedule, initial: int64)
      requires schedule.Valid() && schedule.epoch == 0 && schedule.next == 0
      ensures this.schedule == schedule && View() == Run(schedule.plan, initial, [])
    {
      this.schedule, period, log := schedule, initial, [];
    }

    ghost function View(): State
      reads this, schedule
    {
      State(schedule.epoch, schedule.next, period, log)
    }

    /** Logs every due phase and gives the timer the period of the last. */
    method WriteRecords(due: seq<nat>, later: nat -> int64)
      requires schedule.Valid() && due != [] && schedule.next + |due| <= |schedule.plan.phases|
      requires forall j :: 0 <= j < |due| ==> due[j] == schedule.next + j
      modifies `log, `period
      ensures log == old(log) + Records(schedule.plan, old(View()), schedule.epoch, |due|, later)
      ensures period == schedule.plan.phases[due[|due| - 1]].period
    {
      ghost var records := Records(schedule.plan, View(), schedule.epoch, |due|, later);
      var current, i := period, 0;
      while i + 1 < |due|
        invariant i < |due| && log == old(log) + records[..i]
      {
        var skipped := Application(due[i], false, Requested(schedule.plan, schedule.epoch, due[i]), later(i), current, current);
        assert skipped == records[i] && records[..i + 1] == records[..i] + [records[i]];
        log := log + [skipped];
        i := i + 1;
      }
      period := schedule.plan.phases[due[i]].period;
      var applied := Application(due[i], true, Requested(schedule.plan, schedule.epoch, due[i]), later(i), current, period);
      assert applied == records[i] && records == records[..i] + [records[i]];
      log := log + [applied];
    }

    method ApplySourceSchedule(c: Call) returns (ok: bool)
      requires schedule.Valid()
      modifies this, schedule
      ensures schedule.Valid()
      ensures ok <==> !Fails(schedule.plan, old(View()), c)
      ensures View() == Tick(schedule.plan, old(View()), c)
    {
      ghost var before := View();
      var due := schedule.Due(c.now, c.start);
      if due.None? {
        return false;
      }
      ok := true;
      TickFromDue(schedule.plan, before, c, due.value);
      if due.value != [] {
        ApplyDue(due.value, c.later);
      }
      assert before.log + [] == before.log;
    }

    method ApplyDue(due: seq<nat>, later: nat -> int64)
      requires schedule.Valid() && due != [] && schedule.next + |due| <= |schedule.plan.phases|
      requires forall j :: 0 <= j < |due| ==> due[j] == schedule.next + j
      modifies this, schedule`next
      ensures schedule.Valid()
      ensures View() == Consume(schedule.plan, old(View()), schedule.epoch, |due|, later)
    {
      WriteRecords(due, later);
      schedule.Applied(due[|due| - 1]);
    }
  }

  /** What a call comes to, in terms of the due phases. */
  lemma TickFromDue(p: Plan, s: State, c: Call, due: seq<nat>)
    requires !Fails(p, s, c)
    requires if Latched(p, s, c) == 0 then due == [] else IsDue(p, Latched(p, s, c), s.next, c.now, due)
    ensures due != [] ==> s.next + |due| <= |p.phases|
    ensures Tick(p, s, c) == Consume(p, s, Latched(p, s, c), |due|, c.later)
  {
    if Latched(p, s, c) == 0 {
      assert s.log + [] == s.log;
    } else {
      DueIsCount(p, Latched(p, s, c), s.next, c.now, due);
    }
  }

  lemma {:induction false} DueIsCount(p: Plan, epoch: int, next: nat, now: int, due: seq<nat>)
    requires IsDue(p, epoch, next, now, due)
    ensures |due| == DueCount(p, epoch, next, now)
    decreases |due|
  {
    if due != [] {
      assert Requested(p, epoch, next) <= now;
      DueIsCount(p, epoch, next + 1, now, due[1..]);
    }
  }

  // ---------- Over any sequence of calls ----------

  /** The log holds each phase before `next` exactly once, in order. */
  ghost predicate InOrder(p: Plan, s: State) {
    |s.log| == s.next <= |p.phases| &&
    (s.epoch == 0 ==> s.next == 0) &&
    0 <= s.epoch && s.epoch + p.duration <= INT64_MAX &&
    forall i :: 0 <= i < |s.log| ==> s.log[i].index == i && s.log[i].requested == s.epoch + p.phases[i].offset
  }

  /** Which records are there once `k` phases are consumed. */
  lemma ConsumedAt(p: Plan, s: State, epoch: int64, k: nat, later: nat -> int64, i: int)
    requires |s.log| == s.next && s.next + k <= |p.phases| && 0 <= i < s.next + k
    ensures var log := Consume(p, s, epoch, k, later).log;
            && |log| == s.next + k
            && log[i] == if i < s.next then s.log[i]
               else Application(i, i == s.next + k - 1, epoch + p.phases[i].offset, later(i - s.next), s.period,
                                if i == s.next + k - 1 then p.phases[i].period else s.period)
  {
    if i >= s.next {
      assert Consume(p, s, epoch, k, later).log[i] == Records(p, s, epoch, k, later)[i - s.next];
    }
  }

  lemma ConsumeKeepsOrder(p: Plan, s: State, epoch: int64, k: nat, later: nat -> int64)
    requires InOrder(p, s) && s.next + k <= |p.phases|
    requires 0 < epoch && epoch + p.duration <= INT64_MAX && (s.epoch != 0 ==> s.epoch == epoch)
    ensures InOrder(p, Consume(p, s, epoch, k, later))
  {
    var s' := Consume(p, s, epoch, k, later);
    forall i | 0 <= i < |s'.log| ensures s'.log[i].index == i && s'.log[i].requested == s'.epoch + p.phases[i].offset {
      ConsumedAt(p, s, epoch, k, later, i);
    }
  }

  lemma TickKeepsOrder(p: Plan, s: State, c: Call)
    requires WellFormed(p) && InOrder(p, s)
    ensures InOrder(p, Tick(p, s, c))
  {
    if !Fails(p, s, c) && Latched(p, s, c) != 0 {
      var epoch := Latched(p, s, c);
      ConsumeKeepsOrder(p, s, epoch, DueCount(p, epoch, s.next, c.now), c.later);
    }
  }

  /** Every phase is logged at most once and in order, whatever the calls. */
  lemma {:induction false} PhasesApplyInOrder(p: Plan, initial: int64, calls: seq<Call>)
    requires WellFormed(p)
    ensures InOrder(p, Run(p, initial, calls))
  {
    if |calls| > 0 {
      PhasesApplyInOrder(p, initial, calls[..|calls| - 1]);
      TickKeepsOrder(p, Run(p, initial, calls[..|calls| - 1]), calls[|calls| - 1]);
    }
  }

  /** The clock does not go back within the call. */
  ghost predicate ClockAdvances(c: Call) {
    forall j: nat :: c.now <= c.later(j)
  }

  /** The record is not from before the epoch plus the offset of its phase. */
  ghost predicate IsNotEarly(p: Plan, s: State, i: int)
    requires 0 <= i < |s.log| <= |p.phases|
  {
    s.epoch + p.phases[i].offset <= s.log[i].at
  }

  ghost predicate NoneEarly(p: Plan, s: State) {
    |s.log| <= |p.phases| && forall i :: 0 <= i < |s.log| ==> IsNotEarly(p, s, i)
  }

  lemma TickIsNotEarly(p: Plan, s: State, c: Call)
    requires WellFormed(p) && ClockAdvances(c) && InOrder(p, s) && NoneEarly(p, s)
    ensures NoneEarly(p, Tick(p, s, c))
  {
    if !Fails(p, s, c) && Latched(p, s, c) != 0 {
      var epoch := Latched(p, s, c);
      ConsumeIsNotEarly(p, s, epoch, DueCount(p, epoch, s.next, c.now), c);
    }
  }

  lemma ConsumedIsNotEarly(p: Plan, s: State, epoch: int64, k: nat, c: Call, i: int)
    requires WellFormed(p) && ClockAdvances(c) && |s.log| == s.next && NoneEarly(p, s)
    requires s.next + k <= |p.phases| && k == DueCount(p, epoch, s.next, c.now) && (s.next != 0 ==> s.epoch == epoch)
    requires 0 <= i < s.next + k
    ensures |Consume(p, s, epoch, k, c.later).log| == s.next + k
    ensures IsNotEarly(p, Consume(p, s, epoch, k, c.later), i)
  {
    ConsumedAt(p, s, epoch, k, c.later, i);
    if i < s.next {
      assert IsNotEarly(p, s, i);
    } else {
      DueCountIsExact(p, epoch, s.next, c.now);
      assert Requested(p, epoch, i) <= c.now <= c.later(i - s.next);
    }
  }

  lemma ConsumeIsNotEarly(p: Plan, s: State, epoch: int64, k: nat, c: Call)
    requires WellFormed(p) && ClockAdvances(c) && |s.log| == s.next && NoneEarly(p, s)
    requires s.next + k <= |p.phases| && k == DueCount(p, epoch, s.next, c.now) && (s.next != 0 ==> s.epoch == epoch)
    ensures NoneEarly(p, Consume(p, s, epoch, k, c.later))
  {
    var s' := Consume(p, s, epoch, k, c.later);
    forall i | 0 <= i < |s'.log| ensures IsNotEarly(p, s', i) {
      ConsumedIsNotEarly(p, s, epoch, k, c, i);
    }
  }

  /** No phase is applied or skipped before the epoch plus its offset. */
  lemma {:induction false} PhasesAreNotEarly(p: Plan, initial: int64, calls: seq<Call>)
    requires WellFormed(p) && forall i :: 0 <= i < |calls| ==> ClockAdvances(calls[i])
    ensures NoneEarly(p, Run(p, initial, calls))
  {
    if |calls| > 0 {
      PhasesAreNotEarly(p, initial, calls[..|calls| - 1]);
      PhasesApplyInOrder(p, initial, calls[..|calls| - 1]);
      TickIsNotEarly(p, Run(p, initial, calls[..|calls| - 1]), calls[|calls| - 1]);
    }
  }

  /**
   What one call logs: the phases that it consumes, each with its requested time and its
   own clock reading; the last one is applied and gives the timer its period, the others
   are skipped.
   */
  lemma CallLogs(p: Plan, initial: int64, calls: seq<Call>, i: nat)
    requires WellFormed(p) && |calls| > 0
    requires Run(p, initial, calls[..|calls| - 1]).next <= i < Run(p, initial, calls).next
    ensures var before, s, c := Run(p, initial, calls[..|calls| - 1]), Run(p, initial, calls), calls[|calls| - 1];
            && |s.log| == s.next <= |p.phases|
            && s.log[i].index == i && (s.log[i].applied <==> i == s.next - 1)
            && s.log[i].requested == s.epoch + p.phases[i].offset && s.log[i].at == c.later(i - before.next)
            && s.log[i].oldPeriod == before.period
            && s.log[i].newPeriod == if i == s.next - 1 then p.phases[i].period else before.period
  {
    var front, c := calls[..|calls| - 1], calls[|calls| - 1];
    var before := Run(p, initial, front);
    PhasesApplyInOrder(p, initial, front);
    var epoch := Latched(p, before, c);
    ConsumedAt(p, before, epoch, DueCount(p, epoch, before.next, c.now), c.later, i);
  }

  /** The period in force before record `i`, as the log has it. */
  function PeriodBefore(initial: int64, log: seq<Application>, i: nat): int64
    requires i <= |log|
  {
    if i == 0 then initial else log[i - 1].newPeriod
  }

  /** Record `i` starts from the period in force, and sets that of its phase if it is applied. */
  ghost predicate Follows(p: Plan, initial: int64, log: seq<Application>, i: int)
    requires |log| <= |p.phases| && 0 <= i < |log|
  {
    log[i].oldPeriod == PeriodBefore(initial, log, i) &&
    log[i].newPeriod == if log[i].applied then p.phases[i].period else log[i].oldPeriod
  }

  /**
   The log accounts for the timer: records follow one another without a gap, the last one
   is applied, and the timer has the period that it set.
   */
  ghost predicate TimerFollows(p: Plan, initial: int64, s: State) {
    |s.log| == s.next <= |p.phases| &&
    s.period == PeriodBefore(initial, s.log, |s.log|) &&
    (s.next > 0 ==> s.log[s.next - 1].applied) &&
    forall i :: 0 <= i < |s.log| ==> Follows(p, initial, s.log, i)
  }

  lemma RecordFollows(p: Plan, initial: int64, s: State, epoch: int64, k: nat, later: nat -> int64, i: int)
    requires TimerFollows(p, initial, s) && 0 < k && s.next + k <= |p.phases| && 0 <= i < s.next + k
    ensures Follows(p, initial, Consume(p, s, epoch, k, later).log, i)
  {
    var log := Consume(p, s, epoch, k, later).log;
    if i < s.next {
      assert Follows(p, initial, s.log, i);
      assert log[i] == s.log[i] && PeriodBefore(initial, log, i) == PeriodBefore(initial, s.log, i);
    } else {
      assert log[i] == Records(p, s, epoch, k, later)[i - s.next];
    }
  }

  lemma ConsumeFollows(p: Plan, initial: int64, s: State, epoch: int64, k: nat, later: nat -> int64)
    requires TimerFollows(p, initial, s) && s.next + k <= |p.phases|
    ensures TimerFollows(p, initial, Consume(p, s, epoch, k, later))
  {
    var s' := Consume(p, s, epoch, k, later);
    if k == 0 {
      assert s'.log == s.log;
    } else {
      assert s'.log[s'.next - 1] == Records(p, s, epoch, k, later)[k - 1];
      forall i | 0 <= i < |s'.log| ensures Follows(p, initial, s'.log, i) {
        RecordFollows(p, initial, s, epoch, k, later, i);
      }
    }
  }

  lemma TickFollows(p: Plan, initial: int64, s: State, c: Call)
    requires TimerFollows(p, initial, s)
    ensures TimerFollows(p, initial, Tick(p, s, c))
  {
    if !Fails(p, s, c) {
      var epoch := Latched(p, s, c);
      ConsumeFollows(p, initial, s, epoch, DueCount(p, epoch, s.next, c.now), c.later);
    }
  }

  /** Over any calls the log accounts for the timer's period, which is that of the last phase consumed. */
  lemma {:induction false} TimerFollowsLog(p: Plan, initial: int64, calls: seq<Call>)
    ensures TimerFollows(p, initial, Run(p, initial, calls))
    ensures var s := Run(p, initial, calls); s.period == if s.next == 0 then initial else p.phases[s.next - 1].period
  {
    if |calls| > 0 {
      TimerFollowsLog(p, initial, calls[..|calls| - 1]);
      TickFollows(p, initial, Run(p, initial, calls[..|calls| - 1]), calls[|calls| - 1]);
    }
  }

  /** The epoch is latched once, and what was logged stays. */
  lemma {:induction false} EpochIsLatched(p: Plan, initial: int64, calls: seq<Call>, i: nat)
    requires i <= |calls|
    ensures Run(p, initial, calls[..i]).epoch != 0 ==> Run(p, initial, calls).epoch == Run(p, initial, calls[..i]).epoch
    ensures Run(p, initial, calls[..i]).log <= Run(p, initial, calls).log
  {
    if i == |calls| {
      assert calls[..i] == calls;
    } else {
      EpochIsLatched(p, initial, calls[..|calls| - 1], i);
      assert calls[..|calls| - 1][..i] == calls[..i];
    }
  }

  /** After a call with the epoch latched no phase that is due is left, and no other was consumed by it. */
  lemma NoPhaseIsLeft(p: Plan, initial: int64, calls: seq<Call>, i: nat)
    requires WellFormed(p) && |calls| > 0 && i < |p.phases|
    requires Run(p, initial, calls).epoch != 0
    ensures var s, c := Run(p, initial, calls), calls[|calls| - 1];
            i < s.next <==> s.epoch + p.phases[i].offset <= c.now || i < Run(p, initial, calls[..|calls| - 1]).next
  {
    var before, c := Run(p, initial, calls[..|calls| - 1]), calls[|calls| - 1];
    PhasesApplyInOrder(p, initial, calls[..|calls| - 1]);
    assert !Fails(p, before, c);
    DueCountIsExact(p, Latched(p, before, c), before.next, c.now);
    assert Requested(p, Latched(p, before, c), i) == Latched(p, before, c) + p.phases[i].offset;
  }

  /** After a call at the end of the schedule every phase was consumed, and the timer has its initial period back. */
  lemma TimerIsRestored(p: Plan, boot: string, initial: int64, calls: seq<Call>)
    requires WellFormed(p) && IsFor(p, boot, initial) && |calls| > 0
    requires Run(p, initial, calls).epoch != 0
    requires calls[|calls| - 1].now >= Run(p, initial, calls).epoch + p.duration
    ensures Run(p, initial, calls).next == |p.phases| && Run(p, initial, calls).period == initial
  {
    NoPhaseIsLeft(p, initial, calls, |p.phases| - 1);
    PhasesApplyInOrder(p, initial, calls);
    TimerFollowsLog(p, initial, calls);
  }
}
