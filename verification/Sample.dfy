/** The message whose slots `set_sample` and `merge_history_into_sample` update in place. */
module SampleManagement {
  import opened Integers
  import opened NodeHistory

  /** The process-wide count of operations that ran out of slots. */
  class Metrics {
    var metadataOverflow: uint64

    constructor ()
      ensures metadataOverflow == 0
    {
      metadataOverflow := 0;
    }

    method Increment()
      modifies this
      ensures metadataOverflow == Incremented(old(metadataOverflow))
    {
      metadataOverflow := Incremented(metadataOverflow);
    }
  }

  class Sample {
    var size: nat
    const stats: array<Stats>

    ghost predicate Valid()
      reads this
    {
      stats.Length == STATS_CAPACITY && size <= STATS_CAPACITY
    }

    ghost function Slots(): seq<Stats>
      requires Valid()
      reads this, stats
    {
      stats[..size]
    }

    constructor ()
      ensures Valid() && fresh(stats) && Slots() == []
    {
      var blank := Stats(StoredName(""), Snapshot(0, 0, 0));
      stats := new Stats[STATS_CAPACITY](_ => blank);
      size := 0;
    }

    /** The search loops: the first of the leading slots that carries the name. */
    method FirstNamed(name: string, bound: nat) returns (k: nat)
      requires bound <= stats.Length
      ensures k == Find(stats[..bound], name)
    {
      k := 0;
      while k < bound && NameOf(stats[k]) != name
        invariant k <= bound
        invariant Find(stats[..bound], name) == k + Find(stats[k..bound], name)
      {
        assert stats[k..bound][1..] == stats[k + 1..bound];
        k := k + 1;
      }
      if k < bound {
        assert stats[k..bound][0] == stats[k];
      }
    }

    method SetSample(benchmarkMode: bool, name: string, s: Snapshot, metrics: Metrics)
      requires Valid()
      modifies this, stats, metrics
      ensures Valid()
      ensures benchmarkMode ==> Slots() == old(Slots()) && metrics.metadataOverflow == old(metrics.metadataOverflow)
      ensures !benchmarkMode ==>
                var r := SetSlot(old(Slots()), name, s);
                Slots() == r.slots &&
                metrics.metadataOverflow == if r.cut then Incremented(old(metrics.metadataOverflow)) else old(metrics.metadataOverflow)
    {
      if benchmarkMode { return; }
      var k := FirstNamed(name, size);
      if k < size {
        if IsNewer(s, stats[k].snapshot) {
          stats[k] := stats[k].(snapshot := s);
        }
        return;
      }
      if size >= STATS_CAPACITY {
        metrics.Increment();
        return;
      }
      stats[size] := Stats(StoredName(name), s);
      size := size + 1;
    }

    /** The first loop has compacted the first `i` of the slots that were there before. */
    ghost predicate Compacted(before: seq<Stats>, uniqueSize: nat, i: nat)
      reads this, stats
    {
      stats.Length == STATS_CAPACITY && uniqueSize <= i <= size == |before| <= STATS_CAPACITY &&
      stats[..uniqueSize] == Compact(before[..i]) &&
      forall j :: i <= j < size ==> stats[j] == before[j]
    }

    /** One turn of the first loop: slot `i` goes among the leading unique slots. */
    method CompactOne(ghost before: seq<Stats>, uniqueSize: nat, i: nat) returns (grown: nat)
      requires Compacted(before, uniqueSize, i) && i < size
      modifies stats
      ensures Compacted(before, grown, i + 1)
    {
      CompactStep(before, i);
      grown := uniqueSize;
      var existing := FirstNamed(NameOf(stats[i]), uniqueSize);
      if existing == uniqueSize {
        stats[uniqueSize] := stats[i];
        grown := grown + 1;
      } else if IsNewer(stats[i].snapshot, stats[existing].snapshot) {
        stats[existing] := stats[i];
      }
    }

    /** The first loop: compacts the slots to one per name, in place. */
    method CompactInPlace()
      requires Valid()
      modifies this, stats
      ensures Valid()
      ensures Slots() == Compact(old(Slots()))
    {
      ghost var before := Slots();
      assert before[..0] == [];
      var uniqueSize: nat := 0;
      var i: nat := 0;
      while i < size
        invariant size == |before| && Compacted(before, uniqueSize, i)
      {
        uniqueSize := CompactOne(before, uniqueSize, i);
        i := i + 1;
      }
      assert before[..i] == before;
      size := uniqueSize;
    }

    /** One turn of the second loop: takes in one source slot, or reports that there is no room. */
    method AbsorbOne(e: Stats) returns (cut: bool)
      requires Valid()
      modifies this, stats
      ensures Valid()
      ensures Outcome(Slots(), cut) == AbsorbIfRoom(Outcome(old(Slots()), false), e)
      ensures Unique(old(Slots())) && e in old(Slots()) ==> Slots() == old(Slots()) && !cut
    {
      KnownIsAbsorbed(Slots(), e);
      cut := false;
      var existing := FirstNamed(NameOf(e), size);
      if existing == size {
        if size >= STATS_CAPACITY {
          return true;
        }
        stats[size] := e;
        size := size + 1;
      } else if IsNewer(e.snapshot, stats[existing].snapshot) {
        stats[existing] := e;
      }
    }

    /** The second loop: takes in the source slots until one finds no room. */
    method AbsorbFrom(source: Sample) returns (cut: bool)
      requires Valid() && source.Valid()
      requires if source == this then Unique(Slots()) else source.stats != stats
      modifies this, stats
      ensures Valid()
      ensures source.Slots() == old(source.Slots())
      ensures Outcome(Slots(), cut) == AbsorbBounded(old(Slots()), old(source.Slots()))
    {
      cut := false;
      ghost var mine, offered := Slots(), source.Slots();
      assert offered[..0] == [];
      var i: nat := 0;
      while i < source.size && !cut
        invariant Valid() && source.Valid() && i <= |offered| && source.Slots() == offered
        invariant AbsorbBounded(mine, offered[..i]) == Outcome(Slots(), cut)
      {
        AbsorbTurn(mine, offered, i);
        var e := source.stats[i];
        assert e == offered[i];
        cut := AbsorbOne(e);
        i := i + 1;
      }
      AbsorbEnds(mine, offered, i);
    }

    /** The source may be the sample itself; then it is read after it was compacted. */
    method MergeHistory(benchmarkMode: bool, source: Sample, metrics: Metrics)
      requires Valid() && source.Valid()
      requires source != this ==> source.stats != stats
      modifies this, stats, metrics
      ensures Valid()
      ensures source != this ==> source.Slots() == old(source.Slots())
      ensures benchmarkMode ==> Slots() == old(Slots()) && metrics.metadataOverflow == old(metrics.metadataOverflow)
      ensures !benchmarkMode ==>
                var r := Merged(old(Slots()), if source == this then Compact(old(Slots())) else old(source.Slots()));
                Slots() == r.slots &&
                metrics.metadataOverflow == if r.cut then Incremented(old(metrics.metadataOverflow)) else old(metrics.metadataOverflow)
    {
      if benchmarkMode { return; }
      CompactInPlace();
      CompactKeepsView(old(Slots()));
      var cut := AbsorbFrom(source);
      if cut {
        metrics.Increment();
      }
    }
  }

  lemma KnownIsAbsorbed(slots: seq<Stats>, e: Stats)
    ensures Unique(slots) && e in slots ==> AbsorbIfRoom(Outcome(slots, false), e) == Outcome(slots, false)
  {
    if Unique(slots) && e in slots {
      var i :| 0 <= i < |slots| && slots[i] == e;
      AbsorbKnown(slots, i);
    }
  }

  lemma AbsorbTurn(slots: seq<Stats>, source: seq<Stats>, i: nat)
    requires i < |source|
    ensures AbsorbBounded(slots, source[..i + 1]) == AbsorbIfRoom(AbsorbBounded(slots, source[..i]), source[i])
  {
    assert source[..i + 1][..i] == source[..i];
  }

  lemma {:induction false} CutStays(slots: seq<Stats>, source: seq<Stats>, i: nat, j: nat)
    requires i <= j <= |source|
    requires AbsorbBounded(slots, source[..i]).cut
    ensures AbsorbBounded(slots, source[..j]) == AbsorbBounded(slots, source[..i])
  {
    if i < j {
      CutStays(slots, source, i, j - 1);
      assert source[..j][..j - 1] == source[..j - 1];
    }
  }

  lemma AbsorbEnds(slots: seq<Stats>, source: seq<Stats>, i: nat)
    requires i <= |source| && (i == |source| || AbsorbBounded(slots, source[..i]).cut)
    ensures AbsorbBounded(slots, source) == AbsorbBounded(slots, source[..i])
  {
    assert source[..|source|] == source;
    if i < |source| {
      CutStays(slots, source, i, |source|);
    }
  }
}
