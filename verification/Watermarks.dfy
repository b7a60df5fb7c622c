/**
 The watermarks of delivery reports in every run: what they are safe against, and exactly
 when a report falls below an earlier one of its producer.
 */
module Watermarks {
  import opened Integers
  import opened TrackingState
  import opened TrackingRuns

  // ---------- One report ----------

  /** The watermark that reporter `r` would write for `p`. */
  ghost function NextThrough(s: System, r: nat, p: string): uint64
    requires r in s.readings
  {
    Through(StateOf(s.writer, p).active, s.readings[r])
  }

  lemma ReportAppends(s: System, r: nat, p: string)
    requires r in s.readings
    ensures Apply(s, ReportDelivery(r, p)).writer.lines ==
            s.writer.lines + [Delivery(p, StateOf(s.writer, p).nextRecord, NextThrough(s, r, p))]
    ensures forall q :: StateOf(Apply(s, ReportDelivery(r, p)).writer, q).active == StateOf(s.writer, q).active
  {
  }

  /** Line `i` is a report of the producer. */
  predicate Reported(s: System, p: string, i: int) {
    0 <= i < |s.writer.lines| && s.writer.lines[i].Delivery? && s.writer.lines[i].producer == p
  }

  /** Some active callback of the producer entered at or before the instant. */
  ghost predicate EnteredBy(s: System, p: string, t: uint64) {
    exists k :: k in StateOf(s.writer, p).active && StateOf(s.writer, p).active[k] <= t
  }

  /** Some active callback of the producer entered at the instant. */
  ghost predicate EnteredAt(s: System, p: string, t: uint64) {
    exists k :: k in StateOf(s.writer, p).active && StateOf(s.writer, p).active[k] == t
  }

  /** In every state: a report stays below an instant exactly when its reading or an active callback does. */
  lemma ReportIsBelow(s: System, r: nat, p: string, t: uint64)
    requires r in s.readings
    ensures NextThrough(s, r, p) < t <==> s.readings[r] < t || (0 < t && EnteredBy(s, p, t))
  {
    var active := StateOf(s.writer, p).active;
    assert IsThrough(active, s.readings[r], NextThrough(s, r, p));
    if 0 < t && EnteredBy(s, p, t) {
      var k :| k in active && active[k] <= t;
      assert Before(active[k]) < t;
    }
  }

  // ---------- What holds in every run ----------

  ghost predicate BehindClock(s: System) {
    (forall r :: r in s.readings ==> s.readings[r] <= s.clock) &&
    (forall i :: 0 <= i < |s.writer.lines| && s.writer.lines[i].Delivery? ==> s.writer.lines[i].through <= s.clock)
  }

  lemma ReportStaysBehindClock(s: System, r: nat, p: string)
    requires BehindClock(s) && r in s.readings
    ensures BehindClock(Apply(s, ReportDelivery(r, p)))
  {
    ReportAppends(s, r, p);
    assert NextThrough(s, r, p) <= s.readings[r];
  }

  lemma {:induction false} RunStaysBehindClock(strict: bool, steps: seq<Step>)
    ensures BehindClock(Run(strict, steps))
  {
    if steps != [] {
      var front, step := steps[..|steps| - 1], steps[|steps| - 1];
      RunStaysBehindClock(strict, front);
      if Enabled(strict, Run(strict, front), step) && step.ReportDelivery? {
        ReportStaysBehindClock(Run(strict, front), step.reporter, step.producer);
      }
    }
  }

  /** In any run, a callback that begins by the clock after a report is not earlier than that report. */
  lemma LaterCallbackIsNotEarlier(strict: bool, steps: seq<Step>, step: Step, p: string, i: int)
    requires step.BeginByClock? && Enabled(strict, Run(strict, steps), step) && Reported(Run(strict, steps), p, i)
    ensures Run(strict, steps).writer.lines[i].through <= step.now
    ensures strict ==> Run(strict, steps).writer.lines[i].through < step.now
  {
    RunStaysBehindClock(strict, steps);
  }

  /** Callbacks begin by the clock. */
  ghost predicate EntersByClock(steps: seq<Step>) {
    forall i :: 0 <= i < |steps| ==> !steps[i].BeginAt?
  }

  /** The report leaves room for a callback that entered then. */
  predicate Clears(strict: bool, through: uint64, entry: uint64) {
    through <= if strict then Before(entry) else entry
  }

  /** What was ever reported for a producer clears all its active callbacks. */
  ghost predicate ReportsClear(strict: bool, s: System) {
    forall i, k ::
      0 <= i < |s.writer.lines| && s.writer.lines[i].Delivery? && k in StateOf(s.writer, s.writer.lines[i].producer).active ==>
        Clears(strict, s.writer.lines[i].through, StateOf(s.writer, s.writer.lines[i].producer).active[k])
  }

  /** Lines are only added, and no delivery line. */
  ghost predicate NothingReported(s: System, s': System) {
    s'.writer.lines == s.writer.lines || exists e: Line :: e.Event? && s'.writer.lines == s.writer.lines + [e]
  }

  lemma OldLines(s: System, s': System)
    requires NothingReported(s, s')
    ensures forall i :: 0 <= i < |s'.writer.lines| && s'.writer.lines[i].Delivery? ==>
              i < |s.writer.lines| && s'.writer.lines[i] == s.writer.lines[i]
  {
  }

  /** What holds of a callback that was active before, or entered after everything reported. */
  ghost predicate EntersLate(strict: bool, s: System, s': System) {
    forall q, k :: k in StateOf(s'.writer, q).active ==>
      (k in StateOf(s.writer, q).active && StateOf(s'.writer, q).active[k] == StateOf(s.writer, q).active[k]) ||
      (if strict then s.clock < StateOf(s'.writer, q).active[k] else s.clock <= StateOf(s'.writer, q).active[k])
  }

  lemma QuietClears(strict: bool, s: System, s': System)
    requires BehindClock(s) && ReportsClear(strict, s) && NothingReported(s, s') && EntersLate(strict, s, s')
    ensures ReportsClear(strict, s')
  {
    OldLines(s, s');
  }

  lemma ReportClears(strict: bool, s: System, r: nat, p: string)
    requires r in s.readings && ReportsClear(strict, s)
    ensures ReportsClear(strict, Apply(s, ReportDelivery(r, p)))
  {
    ReportAppends(s, r, p);
    assert IsThrough(StateOf(s.writer, p).active, s.readings[r], NextThrough(s, r, p));
  }

  lemma EndShrinks(w: Writer, p: string, token: uint64)
    ensures End(w, p, token).lines == w.lines
    ensures forall q, k :: k in StateOf(End(w, p, token), q).active ==>
              k in StateOf(w, q).active && StateOf(End(w, p, token), q).active[k] == StateOf(w, q).active[k]
  {
  }

  lemma FinishShrinks(strict: bool, s: System, h: nat)
    requires h in s.handles
    ensures NothingReported(s, Finish(s, h)) && EntersLate(strict, s, Finish(s, h))
  {
    if s.handles[h].Live? {
      EndShrinks(s.writer, s.handles[h].producer, s.handles[h].token);
    }
  }

  lemma QuietStep(strict: bool, s: System, step: Step)
    requires Enabled(strict, s, step) && !step.ReportDelivery?
    ensures NothingReported(s, Apply(s, step))
    ensures !step.BeginAt? ==> EntersLate(strict, s, Apply(s, step))
  {
    match step
    case MoveAssign(h, _) => FinishShrinks(strict, s, h);
    case Destroy(h) => FinishShrinks(strict, s, h);
    case LogEvent(p, event) => assert Event(p, StateOf(s.writer, p).nextRecord, event).Event?;
    case _ =>
  }

  /**
   Watermark safety: as long as callbacks begin by the clock, whatever was reported for a
   producer, by any reporter, is not after the entry of any of its active callbacks, and
   before it if clock readings strictly increase.
   */
  lemma {:induction false} RunReportsClear(strict: bool, steps: seq<Step>)
    requires EntersByClock(steps)
    ensures ReportsClear(strict, Run(strict, steps))
  {
    if steps != [] {
      var front, step := steps[..|steps| - 1], steps[|steps| - 1];
      RunReportsClear(strict, front);
      RunStaysBehindClock(strict, front);
      var s := Run(strict, front);
      if Enabled(strict, s, step) {
        if step.ReportDelivery? {
          ReportClears(strict, s, step.reporter, step.producer);
        } else {
          QuietStep(strict, s, step);
          QuietClears(strict, s, Apply(s, step));
        }
      }
    }
  }

  /** One reporter does all the reporting. */
  ghost predicate OneReporter(steps: seq<Step>) {
    forall i :: 0 <= i < |steps| ==>
      (steps[i].ReadClock? ==> steps[i].reporter == 0) && (steps[i].ReportDelivery? ==> steps[i].reporter == 0)
  }

  /** What was ever reported is not after the reading that will be reported next. */
  ghost predicate ReadsLate(s: System) {
    s.readings.Keys <= {0} &&
    forall i :: 0 <= i < |s.writer.lines| && s.writer.lines[i].Delivery? && 0 in s.readings ==>
      s.writer.lines[i].through <= s.readings[0]
  }

  lemma {:induction false} RunReadsLate(strict: bool, steps: seq<Step>)
    requires OneReporter(steps)
    ensures ReadsLate(Run(strict, steps))
  {
    if steps != [] {
      var front, step := steps[..|steps| - 1], steps[|steps| - 1];
      RunReadsLate(strict, front);
      RunStaysBehindClock(strict, front);
      var s := Run(strict, front);
      if Enabled(strict, s, step) && !step.ReportDelivery? {
        QuietStep(strict, s, step);
        OldLines(s, Apply(s, step));
      }
    }
  }

  // ---------- When a report falls ----------

  /**
   In every run, a report falls below an earlier one exactly when its clock reading was
   taken before that watermark, or a callback that entered no later is active. With
   callbacks begun by the clock only one that entered at that very instant matters, and
   none does if readings strictly increase; with one reporter the reading does not matter.
   */
  lemma ReportFallsExactly(strict: bool, steps: seq<Step>, r: nat, p: string, i: int)
    requires r in Run(strict, steps).readings && Reported(Run(strict, steps), p, i)
    ensures var s := Run(strict, steps);
            var t := s.writer.lines[i].through;
            var falls := NextThrough(s, r, p) < t;
            && (falls <==> s.readings[r] < t || (0 < t && EnteredBy(s, p, t)))
            && (OneReporter(steps) ==> (falls <==> 0 < t && EnteredBy(s, p, t)))
            && (EntersByClock(steps) ==> (falls <==> s.readings[r] < t || (0 < t && EnteredAt(s, p, t))))
            && (EntersByClock(steps) && strict ==> (falls <==> s.readings[r] < t))
            && (EntersByClock(steps) && OneReporter(steps) ==> (falls <==> 0 < t && EnteredAt(s, p, t)))
            && (EntersByClock(steps) && OneReporter(steps) && strict ==> !falls)
  {
    var s := Run(strict, steps);
    var t := s.writer.lines[i].through;
    ReportIsBelow(s, r, p, t);
    if OneReporter(steps) {
      RunReadsLate(strict, steps);
    }
    if EntersByClock(steps) {
      RunReportsClear(strict, steps);
      EnteredByIsAt(strict, s, p, i);
    }
  }

  lemma EnteredByIsAt(strict: bool, s: System, p: string, i: int)
    requires ReportsClear(strict, s) && Reported(s, p, i)
    ensures var t := s.writer.lines[i].through;
            && (0 < t ==> (EnteredBy(s, p, t) <==> EnteredAt(s, p, t)))
            && (0 < t && strict ==> !EnteredBy(s, p, t))
  {
    var active, t := StateOf(s.writer, p).active, s.writer.lines[i].through;
    forall k | k in active ensures Clears(strict, t, active[k]) {
      assert k in StateOf(s.writer, s.writer.lines[i].producer).active;
    }
  }

  // ---------- Monotone runs ----------

  /** No report of a producer falls more than `slack` below any earlier one. */
  ghost predicate Monotone(lines: seq<Line>, slack: nat) {
    forall i, j :: 0 <= i < j < |lines| && lines[i].Delivery? && lines[j].Delivery? && lines[i].producer == lines[j].producer ==>
      lines[i].through <= lines[j].through + slack
  }

  lemma AppendMonotone(s: System, r: nat, p: string, slack: nat)
    requires r in s.readings
    ensures Monotone(Apply(s, ReportDelivery(r, p)).writer.lines, slack) <==>
            Monotone(s.writer.lines, slack) &&
            forall i :: Reported(s, p, i) ==> s.writer.lines[i].through <= NextThrough(s, r, p) + slack
  {
    var lines, more := s.writer.lines, Apply(s, ReportDelivery(r, p)).writer.lines;
    ReportAppends(s, r, p);
    assert forall i :: 0 <= i < |lines| ==> more[i] == lines[i];
    if Monotone(more, slack) {
      forall i | Reported(s, p, i) ensures lines[i].through <= NextThrough(s, r, p) + slack {
        assert more[i].through <= more[|lines|].through + slack;
      }
    }
  }

  lemma QuietMonotone(s: System, s': System, slack: nat)
    requires NothingReported(s, s') && Monotone(s.writer.lines, slack)
    ensures Monotone(s'.writer.lines, slack)
  {
    OldLines(s, s');
  }

  /** The report is one to fall, as its sender could tell beforehand. */
  ghost predicate WillFall(s: System, r: nat, p: string)
    requires r in s.readings
  {
    exists i :: Reported(s, p, i) &&
      (s.readings[r] < s.writer.lines[i].through ||
       (0 < s.writer.lines[i].through && EnteredBy(s, p, s.writer.lines[i].through)))
  }

  /** No report of the run is one to fall. */
  ghost predicate NoneWillFall(strict: bool, steps: seq<Step>) {
    forall i :: 0 <= i < |steps| && steps[i].ReportDelivery? && steps[i].reporter in Run(strict, steps[..i]).readings ==>
      !WillFall(Run(strict, steps[..i]), steps[i].reporter, steps[i].producer)
  }

  lemma NoneWillFallExtends(strict: bool, steps: seq<Step>, last: nat)
    requires |steps| == last + 1
    ensures NoneWillFall(strict, steps) <==>
            NoneWillFall(strict, steps[..last]) &&
            (steps[last].ReportDelivery? && steps[last].reporter in Run(strict, steps[..last]).readings ==>
             !WillFall(Run(strict, steps[..last]), steps[last].reporter, steps[last].producer))
  {
    assert forall i :: 0 <= i < last ==> steps[..last][..i] == steps[..i] && steps[..last][i] == steps[i];
  }

  lemma ReportKeepsMonotone(s: System, r: nat, p: string)
    requires r in s.readings
    ensures Monotone(Apply(s, ReportDelivery(r, p)).writer.lines, 0) <==> Monotone(s.writer.lines, 0) && !WillFall(s, r, p)
  {
    AppendMonotone(s, r, p, 0);
    forall i | Reported(s, p, i)
      ensures NextThrough(s, r, p) < s.writer.lines[i].through <==>
              s.readings[r] < s.writer.lines[i].through ||
              (0 < s.writer.lines[i].through && EnteredBy(s, p, s.writer.lines[i].through))
    {
      ReportIsBelow(s, r, p, s.writer.lines[i].through);
    }
  }

  lemma StepKeepsMonotone(strict: bool, s: System, step: Step)
    requires Enabled(strict, s, step)
    ensures Monotone(Apply(s, step).writer.lines, 0) <==>
            Monotone(s.writer.lines, 0) && (step.ReportDelivery? ==> !WillFall(s, step.reporter, step.producer))
  {
    if step.ReportDelivery? {
      ReportKeepsMonotone(s, step.reporter, step.producer);
    } else {
      QuietStep(strict, s, step);
      QuietMonotoneBack(s, Apply(s, step));
    }
  }

  /** In every run whatsoever, watermarks never fall if and only if no report was one to fall. */
  lemma {:induction false} MonotoneExactly(strict: bool, steps: seq<Step>)
    ensures Monotone(Run(strict, steps).writer.lines, 0) <==> NoneWillFall(strict, steps)
  {
    if steps != [] {
      var last := |steps| - 1;
      var s, step := Run(strict, steps[..last]), steps[last];
      MonotoneExactly(strict, steps[..last]);
      NoneWillFallExtends(strict, steps, last);
      if Enabled(strict, s, step) {
        StepKeepsMonotone(strict, s, step);
      }
    }
  }

  lemma QuietMonotoneBack(s: System, s': System)
    requires NothingReported(s, s')
    ensures Monotone(s'.writer.lines, 0) <==> Monotone(s.writer.lines, 0)
  {
    if Monotone(s.writer.lines, 0) {
      QuietMonotone(s, s', 0);
    }
    assert forall i :: 0 <= i < |s.writer.lines| ==> s'.writer.lines[i] == s.writer.lines[i];
  }

  lemma ReportKeepsOrder(strict: bool, s: System, p: string)
    requires 0 in s.readings && ReadsLate(s) && ReportsClear(strict, s)
    requires Monotone(s.writer.lines, if strict then 0 else 1)
    ensures Monotone(Apply(s, ReportDelivery(0, p)).writer.lines, if strict then 0 else 1)
  {
    var active, slack := StateOf(s.writer, p).active, if strict then 0 else 1;
    AppendMonotone(s, 0, p, slack);
    assert IsThrough(active, s.readings[0], NextThrough(s, 0, p));
    forall i | Reported(s, p, i) ensures s.writer.lines[i].through <= NextThrough(s, 0, p) + slack {
      forall k | k in active ensures s.writer.lines[i].through <= Before(active[k]) + slack {
        assert k in StateOf(s.writer, s.writer.lines[i].producer).active;
        assert Clears(strict, s.writer.lines[i].through, active[k]);
      }
    }
  }

  /**
   With one reporter and callbacks begun by the clock, one producer's watermarks never
   fall when clock readings strictly increase, and never fall more than one below any
   earlier one when readings may repeat.
   */
  lemma {:induction false} WatermarkIsMonotone(strict: bool, steps: seq<Step>)
    requires EntersByClock(steps) && OneReporter(steps)
    ensures Monotone(Run(strict, steps).writer.lines, if strict then 0 else 1)
  {
    if steps != [] {
      var front, step := steps[..|steps| - 1], steps[|steps| - 1];
      WatermarkIsMonotone(strict, front);
      var s := Run(strict, front);
      if Enabled(strict, s, step) {
        if step.ReportDelivery? {
          RunReadsLate(strict, front);
          RunReportsClear(strict, front);
          ReportKeepsOrder(strict, s, step.producer);
        } else {
          QuietStep(strict, s, step);
          QuietMonotone(s, Apply(s, step), if strict then 0 else 1);
        }
      }
    }
  }

  // ---------- Runs that do fall ----------

  /** The state after a first report of one producer, with the clock at `now`. */
  lemma FirstReport(strict: bool, p: string, now: uint64) returns (steps: seq<Step>)
    ensures steps == [ReadClock(0, now), ReportDelivery(0, p)]
    ensures Run(strict, steps) ==
            System(Writer(map[p := ProducerState(1, 0, map[])], [Delivery(p, 0, now)]), map[], now, map[], [], [])
  {
    steps := [ReadClock(0, now), ReportDelivery(0, p)];
    RunExtends(strict, [], ReadClock(0, now));
    assert [] + [ReadClock(0, now)] == [ReadClock(0, now)];
    RunExtends(strict, [ReadClock(0, now)], ReportDelivery(0, p));
    assert [ReadClock(0, now)] + [ReportDelivery(0, p)] == steps;
    assert map[0 := now] - {0} == map[];
  }

  lemma NextReport(strict: bool, steps: seq<Step>, p: string, now: uint64, through: uint64)
    requires Enabled(strict, Run(strict, steps), ReadClock(0, now))
    requires IsThrough(StateOf(Run(strict, steps).writer, p).active, now, through)
    ensures var lines := Run(strict, steps + [ReadClock(0, now)] + [ReportDelivery(0, p)]).writer.lines;
            lines == Run(strict, steps).writer.lines + [Delivery(p, StateOf(Run(strict, steps).writer, p).nextRecord, through)]
  {
    RunExtends(strict, steps, ReadClock(0, now));
    RunExtends(strict, steps + [ReadClock(0, now)], ReportDelivery(0, p));
    var active := StateOf(Run(strict, steps).writer, p).active;
    ThroughIsUnique(active, now, through, Through(active, now));
  }

  lemma ReportThenBegin(strict: bool, p: string, reported: uint64, begin: Step, entry: uint64) returns (steps: seq<Step>)
    requires begin == BeginAt(0, p, entry) || (begin == BeginByClock(0, p, entry) && !strict && reported == entry)
    ensures steps == [ReadClock(0, reported), ReportDelivery(0, p)] + [begin]
    ensures var s := Run(strict, steps);
            && s.writer == Writer(map[p := ProducerState(1, 1, map[1 := entry])], [Delivery(p, 0, reported)])
            && s.clock == reported
  {
    var first := FirstReport(strict, p, reported);
    RunExtends(strict, first, begin);
    steps := first + [begin];
  }

  /** A first report at `reported`, then one callback, then a report at `now`. */
  lemma OneCallbackBetween(strict: bool, p: string, reported: uint64, begin: Step, entry: uint64, now: uint64)
    returns (steps: seq<Step>)
    requires begin == BeginAt(0, p, entry) || (begin == BeginByClock(0, p, entry) && !strict && reported == entry)
    requires 0 < entry <= now && if strict then reported < now else reported <= now
    ensures steps == [ReadClock(0, reported), ReportDelivery(0, p)] + [begin] + [ReadClock(0, now)] + [ReportDelivery(0, p)]
    ensures Run(strict, steps).writer.lines == [Delivery(p, 0, reported), Delivery(p, 1, entry - 1)]
  {
    var before := ReportThenBegin(strict, p, reported, begin, entry);
    var active := map[1 := entry];
    assert active[1] == entry;
    assert IsThrough(active, now, entry - 1);
    NextReport(strict, before, p, now, entry - 1);
    steps := before + [ReadClock(0, now)] + [ReportDelivery(0, p)];
  }

  /** A callback may enter at the very instant that was reported, whatever that is: the watermark falls by one. */
  lemma RepeatedReadingsFallByOne(p: string, t: uint64)
    requires 0 < t
    ensures exists steps :: EntersByClock(steps) && OneReporter(steps) &&
              Run(false, steps).writer.lines == [Delivery(p, 0, t), Delivery(p, 1, t - 1)]
  {
    var steps := OneCallbackBetween(false, p, t, BeginByClock(0, p, t), t, t);
  }

  /** A callback begun with an explicit entry takes the watermark back to just before it. */
  lemma ExplicitEntryFallsFurther(p: string, reported: uint64, entry: uint64)
    requires 0 < entry <= reported < UINT64_MAX
    ensures exists steps :: OneReporter(steps) &&
              Run(true, steps).writer.lines == [Delivery(p, 0, reported), Delivery(p, 1, entry - 1)]
  {
    var steps := OneCallbackBetween(true, p, reported, BeginAt(0, p, entry), entry, reported + 1);
  }

  /** Two reporters can write their readings in the wrong order. */
  lemma TwoReportersCanCross(p: string, early: uint64, late: uint64)
    requires early < late
    ensures exists steps :: EntersByClock(steps) &&
              Run(true, steps).writer.lines == [Delivery(p, 0, late), Delivery(p, 1, early)]
  {
    var taken := BothRead(early, late);
    CrossedReports(Run(true, taken), p, early, late);
    RunExtends(true, taken, ReportDelivery(0, p));
    RunExtends(true, taken + [ReportDelivery(0, p)], ReportDelivery(1, p));
    assert EntersByClock(taken + [ReportDelivery(0, p)] + [ReportDelivery(1, p)]);
  }

  lemma BothRead(early: uint64, late: uint64) returns (steps: seq<Step>)
    requires early < late
    ensures steps == [ReadClock(1, early)] + [ReadClock(0, late)]
    ensures Run(true, steps) == START.(clock := late, readings := map[1 := early, 0 := late])
  {
    RunExtends(true, [], ReadClock(1, early));
    assert [] + [ReadClock(1, early)] == [ReadClock(1, early)];
    RunExtends(true, [ReadClock(1, early)], ReadClock(0, late));
    steps := [ReadClock(1, early)] + [ReadClock(0, late)];
  }

  lemma CrossedReports(s: System, p: string, early: uint64, late: uint64)
    requires s.writer == Writer(map[], []) && s.readings == map[1 := early, 0 := late]
    ensures var s' := Apply(s, ReportDelivery(0, p));
            && 1 in s'.readings
            && Apply(s', ReportDelivery(1, p)).writer.lines == [Delivery(p, 0, late), Delivery(p, 1, early)]
  {
    var s' := Apply(s, ReportDelivery(0, p));
    ReportAppends(s, 0, p);
    ReportAppends(s', 1, p);
  }
}
