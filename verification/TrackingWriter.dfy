/** `TrackingWriter` and its move-only `Callback` handles, as objects updated in place. */
module TrackingWriters {
  import opened Integers
  import opened TrackingState

  class TrackingWriter {
    var producers: map<string, ProducerState>
    var lines: seq<Line>

    constructor ()
      ensures View() == Writer(map[], [])
    {
      producers, lines := map[], [];
    }

    ghost function View(): Writer
      reads this
    {
      Writer(producers, lines)
    }

    /** `producers_[producer]` */
    method Entry(producer: string) returns (s: ProducerState)
      modifies this
      ensures View() == Register(old(View()), producer)
      ensures s == StateOf(old(View()), producer)
    {
      if producer !in producers {
        producers := producers[producer := NO_PRODUCER];
      }
      s := producers[producer];
      assert producers == producers[producer := s];
    }

    method RegisterProducer(producer: string)
      modifies this
      ensures View() == Register(old(View()), producer)
      ensures lines == old(lines) && producers.Keys == old(producers.Keys) + {producer}
      ensures forall p :: p in old(producers) ==> producers[p] == old(producers)[p]
      ensures producer !in old(producers) ==> producers[producer] == ProducerState(0, 0, map[])
    {
      var _ := Entry(producer);
    }

    method BeginCallback(producer: string, entry: uint64) returns (callback: Callback)
      modifies this
      ensures View() == Begin(old(View()), producer, entry)
      ensures fresh(callback) && callback.writer == this
      ensures callback.producer == producer && callback.token == NextToken(old(View()), producer)
      ensures lines == old(lines) && callback.token in producers[producer].active
      ensures callback.token !in StateOf(old(View()), producer).active ==>
                producers[producer].active == StateOf(old(View()), producer).active[callback.token := entry]
    {
      var s := Entry(producer);
      var token := Incremented(s.nextCallback);
      var active := if token in s.active then s.active else s.active[token := entry];
      producers := producers[producer := s.(nextCallback := token, active := active)];
      callback := new Callback(this, producer, token);
    }

    method EndCallback(producer: string, token: uint64)
      modifies this
      ensures View() == End(old(View()), producer, token)
      ensures lines == old(lines) && producers.Keys == old(producers.Keys)
      ensures producer in producers ==> producers[producer].active == old(producers)[producer].active - {token}
    {
      if producer in producers {
        var s := producers[producer];
        producers := producers[producer := s.(active := s.active - {token})];
      }
    }

    method WriteLine(producer: string, s: ProducerState, line: Line)
      requires s == StateOf(View(), producer)
      modifies this
      ensures View() == Append(old(View()), producer, line)
    {
      producers := producers[producer := s.(nextRecord := Incremented(s.nextRecord))];
      lines := lines + [line];
    }

    method WriteEvent(producer: string, event: string)
      modifies this
      ensures View() == TrackingState.WriteEvent(old(View()), producer, event)
      ensures lines == old(lines) + [Event(producer, StateOf(old(View()), producer).nextRecord, event)]
    {
      var s := Entry(producer);
      WriteLine(producer, s, Event(producer, s.nextRecord, event));
    }

    method ReportDelivery(producer: string, now: uint64)
      modifies this
      ensures View() == Report(old(View()), producer, now)
    {
      var s := Entry(producer);
      var through := Watermark(s.active, now);
      ThroughIsUnique(s.active, now, through, Through(s.active, now));
      WriteLine(producer, s, Delivery(producer, s.nextRecord, through));
    }
  }

  /** The loop of `report_delivery`, over the active callbacks in whatever order. */
  method Watermark(active: map<uint64, uint64>, now: uint64) returns (through: uint64)
    ensures IsThrough(active, now, through)
    ensures through <= now && forall k :: k in active ==> through < active[k] || through == active[k] == 0
    ensures through == now || exists k :: k in active && (active[k] == through + 1 || active[k] == through == 0)
  {
    through := now;
    var todo := active.Keys;
    ghost var seen: map<uint64, uint64> := map[];
    while todo != {}
      invariant todo <= active.Keys && seen == active - todo
      invariant IsThrough(seen, now, through)
    {
      var k :| k in todo;
      ThroughOfOneMore(seen, now, through, k, active[k]);
      if active[k] == 0 {
        through := 0;
      } else if active[k] - 1 < through {
        through := active[k] - 1;
      }
      todo := todo - {k};
      seen := seen[k := active[k]];
    }
    assert seen == active;
  }

  class Callback {
    var writer: TrackingWriter?
    var producer: string
    var token: uint64

    constructor (writer: TrackingWriter?, producer: string, token: uint64)
      ensures this.writer == writer && this.producer == producer && this.token == token
    {
      this.writer, this.producer, this.token := writer, producer, token;
    }

    ghost function View(): Handle
      reads this
    {
      if writer == null then Empty else Live(producer, token)
    }

    constructor Move(other: Callback)
      modifies other
      ensures writer == old(other.writer) && View() == old(other.View())
      ensures other.View() == Empty
    {
      writer, producer, token := other.writer, other.producer, other.token;
      new;
      other.writer := null;
    }

    method Finish()
      modifies this, writer
      ensures View() == Empty
      ensures old(writer) != null ==> old(writer).View() == End(old(writer.View()), old(producer), old(token))
    {
      if writer != null {
        writer.EndCallback(producer, token);
        writer := null;
      }
    }

    method Assign(other: Callback)
      modifies this, other, writer
      ensures this == other ==> writer == old(writer) && View() == old(View())
      ensures this == other && writer != null ==> writer.View() == old(writer.View())
      ensures this != other ==> other.View() == Empty && writer == old(other.writer) && View() == old(other.View())
      ensures this != other && old(writer) != null ==>
                old(writer).View() == End(old(writer.View()), old(producer), old(token))
    {
      if this != other {
        Finish();
        writer, producer, token := other.writer, other.producer, other.token;
        other.writer := null;
      }
    }
  }
}
