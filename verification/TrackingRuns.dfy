/**
 Every interleaving of callbacks, events and delivery reports. Each step is one critical
 section of the writer's mutex, one move of a handle, or one clock reading that a reporter
 takes before it asks for the mutex. A step that cannot happen changes nothing, so the
 results below hold for every sequence of steps.
 */
module TrackingRuns {
  import opened Integers
  import opened TrackingState

  datatype System = System(
    writer: Writer,
    handles: map<nat, Handle>,
    clock: int,                      // the latest clock reading, -1 before the first
    readings: map<nat, uint64>,      // reporters that have read the clock and not yet reported
    issued: seq<(string, uint64)>,   // the callbacks begun, in order
    released: seq<(string, uint64)>) // the calls of end_callback, in order

  datatype Step =
    | BeginByClock(handle: nat, producer: string, now: uint64)
    | BeginAt(handle: nat, producer: string, entry: uint64)
    | MoveConstruct(handle: nat, from: nat)
    | MoveAssign(handle: nat, from: nat)
    | Destroy(handle: nat)
    | RegisterProducer(producer: string)
    | LogEvent(producer: string, event: string)
    | ReadClock(reporter: nat, now: uint64)
    | ReportDelivery(reporter: nat, producer: string)

  const START: System := System(Writer(map[], []), map[], -1, map[], [], [])

  /** With `strict`, every clock reading is later than the one before it. */
  predicate Enabled(strict: bool, s: System, step: Step) {
    match step
    case BeginByClock(h, _, now) => h !in s.handles && (if strict then s.clock < now else s.clock <= now)
    case BeginAt(h, _, _) => h !in s.handles
    case MoveConstruct(h, from) => h !in s.handles && from in s.handles
    case MoveAssign(h, from) => h in s.handles && from in s.handles
    case Destroy(h) => h in s.handles
    case ReadClock(_, now) => if strict then s.clock < now else s.clock <= now
    case ReportDelivery(r, _) => r in s.readings
    case _ => true
  }

  function BeginHandle(s: System, h: nat, p: string, entry: uint64): System {
    var token := NextToken(s.writer, p);
    s.(writer := Begin(s.writer, p, entry), handles := s.handles[h := Live(p, token)], issued := s.issued + [(p, token)])
  }

  function Finish(s: System, h: nat): System
    requires h in s.handles
  {
    match s.handles[h]
    case Empty => s
    case Live(p, t) => s.(writer := End(s.writer, p, t), handles := s.handles[h := Empty], released := s.released + [(p, t)])
  }

  function Transfer(s: System, h: nat, from: nat): System
    requires from in s.handles
  {
    s.(handles := s.handles[h := s.handles[from]][from := Empty])
  }

  ghost function Apply(s: System, step: Step): System
    requires Enabled(false, s, step)
  {
    match step
    case BeginByClock(h, p, now) => BeginHandle(s, h, p, now).(clock := now)
    case BeginAt(h, p, entry) => BeginHandle(s, h, p, entry)
    case MoveConstruct(h, from) => Transfer(s, h, from)
    case MoveAssign(h, from) => if h == from then s else Transfer(Finish(s, h), h, from)
    case Destroy(h) => var f := Finish(s, h); f.(handles := f.handles - {h})
    case RegisterProducer(p) => s.(writer := Register(s.writer, p))
    case LogEvent(p, event) => s.(writer := WriteEvent(s.writer, p, event))
    case ReadClock(r, now) => s.(clock := now, readings := s.readings[r := now])
    case ReportDelivery(r, p) =>
      s.(writer := Report(s.writer, p, s.readings[r]), readings := s.readings - {r})
  }

  ghost function Run(strict: bool, steps: seq<Step>): System {
    if steps == [] then START else
    var s, step := Run(strict, steps[..|steps| - 1]), steps[|steps| - 1];
    if Enabled(strict, s, step) then Apply(s, step) else s
  }

  lemma RunExtends(strict: bool, steps: seq<Step>, step: Step)
    ensures Run(strict, steps + [step]) ==
            if Enabled(strict, Run(strict, steps), step) then Apply(Run(strict, steps), step) else Run(strict, steps)
  {
    assert (steps + [step])[..|steps|] == steps;
  }

  // ---------- Record numbers ----------

  /** The record numbers of one producer's lines, in write order. */
  function NumbersOf(lines: seq<Line>, p: string): seq<uint64> {
    if lines == [] then [] else
    var last := lines[|lines| - 1];
    NumbersOf(lines[..|lines| - 1], p) + if last.producer == p then [last.recordSeq] else []
  }

  ghost predicate Numbered(w: Writer, p: string) {
    var numbers := NumbersOf(w.lines, p);
    StateOf(w, p).nextRecord == WrapUint64(|numbers|) &&
    forall i :: 0 <= i < |numbers| ==> numbers[i] == WrapUint64(i)
  }

  lemma AppendKeepsNumbers(w: Writer, p: string, line: Line, q: string)
    requires Numbered(w, q) && line.producer == p && line.recordSeq == StateOf(w, p).nextRecord
    ensures Numbered(Append(w, p, line), q)
  {
    var w' := Append(w, p, line);
    assert w'.lines[..|w.lines|] == w.lines;
    WrapSuccessor(|NumbersOf(w.lines, q)|);
  }

  /** In every run the lines of a producer are numbered 0, 1, 2, ... modulo 2^64. */
  lemma {:induction false} RunNumbersRecords(strict: bool, steps: seq<Step>, q: string)
    ensures Numbered(Run(strict, steps).writer, q)
  {
    if steps != [] {
      var front, step := steps[..|steps| - 1], steps[|steps| - 1];
      RunNumbersRecords(strict, front, q);
      var s := Run(strict, front);
      if Enabled(strict, s, step) {
        match step
        case LogEvent(p, event) =>
          AppendKeepsNumbers(s.writer, p, Event(p, StateOf(s.writer, p).nextRecord, event), q);
        case ReportDelivery(r, p) =>
          var through := Through(StateOf(s.writer, p).active, s.readings[r]);
          AppendKeepsNumbers(s.writer, p, Delivery(p, StateOf(s.writer, p).nextRecord, through), q);
        case _ =>
          assert Apply(s, step).writer.lines == s.writer.lines;
          assert StateOf(Apply(s, step).writer, q).nextRecord == StateOf(s.writer, q).nextRecord;
      }
    }
  }
}
