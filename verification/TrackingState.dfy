/** What the operations of `TrackingWriter` do to the state that its mutex guards. */
module TrackingState {
  import opened Integers

  datatype ProducerState = ProducerState(nextRecord: uint64, nextCallback: uint64, active: map<uint64, uint64>)

  /** A line handed to the write function. */
  datatype Line =
    | Event(producer: string, recordSeq: uint64, event: string)
    | Delivery(producer: string, recordSeq: uint64, through: uint64)

  datatype Writer = Writer(producers: map<string, ProducerState>, lines: seq<Line>)

  /** A `Callback` object: empty when its writer is null. */
  datatype Handle = Empty | Live(producer: string, token: uint64)

  const NO_PRODUCER: ProducerState := ProducerState(0, 0, map[])

  /** `producers_[producer]`, which creates the entry when it is missing. */
  function StateOf(w: Writer, p: string): ProducerState {
    if p in w.producers then w.producers[p] else NO_PRODUCER
  }

  function Register(w: Writer, p: string): Writer {
    w.(producers := w.producers[p := StateOf(w, p)])
  }

  function NextToken(w: Writer, p: string): uint64 {
    Incremented(StateOf(w, p).nextCallback)
  }

  /** `emplace` keeps what a token that is still active stands for. */
  function Begin(w: Writer, p: string, entry: uint64): Writer {
    var s, token := StateOf(w, p), NextToken(w, p);
    w.(producers := w.producers[p := s.(nextCallback := token,
                                        active := if token in s.active then s.active else s.active[token := entry])])
  }

  function End(w: Writer, p: string, token: uint64): Writer {
    if p !in w.producers then w
    else
      var s := w.producers[p];
      w.(producers := w.producers[p := s.(active := s.active - {token})])
  }

  function Append(w: Writer, p: string, line: Line): Writer {
    var s := StateOf(w, p);
    Writer(w.producers[p := s.(nextRecord := Incremented(s.nextRecord))], w.lines + [line])
  }

  function WriteEvent(w: Writer, p: string, event: string): Writer {
    Append(w, p, Event(p, StateOf(w, p).nextRecord, event))
  }

  ghost function Report(w: Writer, p: string, now: uint64): Writer {
    Append(w, p, Delivery(p, StateOf(w, p).nextRecord, Through(StateOf(w, p).active, now)))
  }

  // ---------- The watermark ----------

  /** The last instant before a callback that entered at `entry`. */
  function Before(entry: uint64): uint64 {
    if entry == 0 then 0 else entry - 1
  }

  /** The latest instant that is neither after `now` nor reached by an active callback. */
  ghost predicate IsThrough(active: map<uint64, uint64>, now: uint64, t: uint64) {
    t <= now &&
    (forall k :: k in active ==> t <= Before(active[k])) &&
    (t == now || exists k :: k in active && t == Before(active[k]))
  }

  lemma ThroughExists(active: map<uint64, uint64>, now: uint64)
    ensures exists t: uint64 :: IsThrough(active, now, t)
    decreases |active|
  {
    if active.Keys == {} {
      assert IsThrough(active, now, now);
    } else {
      var k :| k in active;
      var rest := active - {k};
      assert rest.Keys == active.Keys - {k};
      ThroughExists(rest, now);
      var t: uint64 :| IsThrough(rest, now, t);
      ThroughOfOneMore(rest, now, t, k, active[k]);
      assert rest[k := active[k]] == active;
    }
  }

  lemma ThroughOfOneMore(seen: map<uint64, uint64>, now: uint64, t: uint64, k: uint64, entry: uint64)
    requires IsThrough(seen, now, t) && k !in seen
    ensures IsThrough(seen[k := entry], now, if Before(entry) < t then Before(entry) else t)
  {
    var more := seen[k := entry];
    assert more[k] == entry;
    assert forall j :: j in seen ==> j in more && more[j] == seen[j];
  }

  lemma ThroughIsUnique(active: map<uint64, uint64>, now: uint64, t: uint64, u: uint64)
    requires IsThrough(active, now, t) && IsThrough(active, now, u)
    ensures t == u
  {
  }

  ghost function Through(active: map<uint64, uint64>, now: uint64): (t: uint64)
    ensures IsThrough(active, now, t)
  {
    ThroughExists(active, now);
    var t :| IsThrough(active, now, t);
    t
  }
}
