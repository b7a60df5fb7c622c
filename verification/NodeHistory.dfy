/**
 The history of node snapshots that a message carries: the order on snapshots, the
 slot-by-slot effect of `set_sample` and `merge_history_into_sample` on sequences of
 slots, and the map from node names to newest snapshots that those slots stand for.
 */
module NodeHistory {
  import opened Integers

  const STATS_CAPACITY: nat := 63
  const NODE_NAME_LENGTH: nat := 48
  const NUL: char := '\0'

  type NameBuffer = b: string | |b| == NODE_NAME_LENGTH witness seq(NODE_NAME_LENGTH, _ => '\0')

  datatype Snapshot = Snapshot(sequence: uint32, timestamp: uint64, dropped: uint32)

  datatype Stats = Stats(nodeName: NameBuffer, snapshot: Snapshot)

  // ---------- Names stored in fixed-size buffers ----------

  function UntilNul(b: string): string {
    if b == "" || b[0] == NUL then "" else [b[0]] + UntilNul(b[1..])
  }

  function NameOf(e: Stats): string {
    UntilNul(e.nodeName)
  }

  function Padding(n: nat): (p: string)
    ensures |p| == n && forall i :: 0 <= i < n ==> p[i] == NUL
  {
    seq(n, _ => NUL)
  }

  /** The name is all that comes before the first NUL, or the whole buffer. */
  lemma {:induction false} UntilNulIsPrefix(b: string)
    ensures UntilNul(b) <= b && '\0' !in UntilNul(b)
    ensures |UntilNul(b)| == |b| || b[|UntilNul(b)|] == '\0'
  {
    if b != "" && b[0] != NUL {
      UntilNulIsPrefix(b[1..]);
      assert b == [b[0]] + b[1..];
    }
  }

  /** What `set_sample` leaves in the buffer of a new slot: at most 47 characters, then NULs. */
  function StoredName(name: string): NameBuffer {
    var kept := if |name| < NODE_NAME_LENGTH - 1 then name else name[..NODE_NAME_LENGTH - 1];
    kept + Padding(NODE_NAME_LENGTH - |kept|)
  }

  /** The buffer holds the first 47 characters and is NUL beyond the name. */
  lemma StoredNameHolds(name: string, i: nat)
    requires i < NODE_NAME_LENGTH
    ensures StoredName(name)[i] == if i < |name| && i < NODE_NAME_LENGTH - 1 then name[i] else '\0'
  {
  }

  predicate ShortName(name: string) {
    |name| < NODE_NAME_LENGTH && NUL !in name
  }

  lemma {:induction false} UntilNulStops(name: string, rest: string)
    requires rest != "" && rest[0] == NUL
    ensures NUL !in name ==> UntilNul(name + rest) == name
    ensures NUL !in UntilNul(name + rest)
    ensures |UntilNul(name + rest)| <= |name|
  {
    if name == "" {
      assert name + rest == rest;
    } else {
      UntilNulStops(name[1..], rest);
      assert (name + rest)[1..] == name[1..] + rest;
      assert name == [name[0]] + name[1..];
    }
  }

  /** A name survives being stored exactly when it is short and free of NULs. */
  lemma StoredNameReadsBack(name: string, snapshot: Snapshot)
    ensures NameOf(Stats(StoredName(name), snapshot)) == name <==> ShortName(name)
  {
    var kept := if |name| < NODE_NAME_LENGTH - 1 then name else name[..NODE_NAME_LENGTH - 1];
    UntilNulStops(kept, Padding(NODE_NAME_LENGTH - |kept|));
    if ShortName(name) {
      assert kept == name;
    }
  }

  // ---------- The order on snapshots ----------

  predicate IsNewer(a: Snapshot, b: Snapshot) {
    a.sequence > b.sequence ||
    (a.sequence == b.sequence &&
     (a.timestamp > b.timestamp || (a.timestamp == b.timestamp && a.dropped > b.dropped)))
  }

  /** The order is that of the numbers whose leading digits are the sequence, then the timestamp, then the drops. */
  lemma IsNewerIsLexicographic(a: Snapshot, b: Snapshot)
    ensures IsNewer(a, b) <==>
            (a.sequence * 0x1_0000_0000_0000_0000 + a.timestamp) * 0x1_0000_0000 + a.dropped >
            (b.sequence * 0x1_0000_0000_0000_0000 + b.timestamp) * 0x1_0000_0000 + b.dropped
    ensures a.sequence == b.sequence && a.timestamp == b.timestamp ==> (IsNewer(a, b) <==> a.dropped > b.dropped)
  {
  }

  function Newest(a: Snapshot, b: Snapshot): Snapshot {
    if IsNewer(b, a) then b else a
  }

  // ---------- What a sequence of slots stands for ----------

  type History = map<string, Snapshot>

  function Put(h: History, n: string, s: Snapshot): History {
    h[n := if n in h then Newest(h[n], s) else s]
  }

  /** The newest snapshot of every node named by some slot. */
  function View(slots: seq<Stats>): (h: History)
    ensures h.Keys == Names(slots)
  {
    if slots == [] then map[] else
    var last := |slots| - 1;
    assert forall i :: 0 <= i < last ==> slots[..last][i] == slots[i];
    Put(View(slots[..last]), NameOf(slots[last]), slots[last].snapshot)
  }

  function Names(slots: seq<Stats>): set<string> {
    set i | 0 <= i < |slots| :: NameOf(slots[i])
  }

  ghost predicate IsNewestOf(slots: seq<Stats>, n: string, s: Snapshot) {
    (exists i :: 0 <= i < |slots| && NameOf(slots[i]) == n && slots[i].snapshot == s) &&
    (forall i :: 0 <= i < |slots| && NameOf(slots[i]) == n ==> !IsNewer(slots[i].snapshot, s))
  }

  lemma {:induction false} ViewHoldsNewest(slots: seq<Stats>, n: string)
    requires n in View(slots)
    ensures IsNewestOf(slots, n, View(slots)[n])
  {
    var last := |slots| - 1;
    var front, e := slots[..last], slots[last];
    if n in View(front) {
      ViewHoldsNewest(front, n);
      var i :| 0 <= i < last && NameOf(front[i]) == n && front[i].snapshot == View(front)[n];
      assert slots[i] == front[i];
    }
    var s := View(slots)[n];
    forall i | 0 <= i < |slots| && NameOf(slots[i]) == n ensures !IsNewer(slots[i].snapshot, s) {
      if i < last {
        assert front[i] == slots[i];
        assert n in Names(front);
      }
    }
  }

  /** `View` is the pointwise lexicographic maximum, and nothing else is. */
  lemma ViewIsNewest(slots: seq<Stats>, n: string, s: Snapshot)
    ensures n in View(slots) && View(slots)[n] == s <==> IsNewestOf(slots, n, s)
  {
    if IsNewestOf(slots, n, s) {
      assert n in Names(slots);
    }
    if n in View(slots) {
      ViewHoldsNewest(slots, n);
      if IsNewestOf(slots, n, s) {
        NewestIsUnique(slots, n, s, View(slots)[n]);
      }
    }
  }

  lemma NewestIsUnique(slots: seq<Stats>, n: string, s: Snapshot, t: Snapshot)
    requires IsNewestOf(slots, n, s) && IsNewestOf(slots, n, t)
    ensures s == t
  {
    assert !IsNewer(s, t) && !IsNewer(t, s);
  }

  ghost predicate Unique(slots: seq<Stats>) {
    forall i, j :: 0 <= i < j < |slots| ==> NameOf(slots[i]) != NameOf(slots[j])
  }

  lemma NamesOfPrefix(source: seq<Stats>, i: nat, j: nat)
    requires i <= j <= |source|
    ensures Names(source[..i]) <= Names(source[..j])
    ensures i < |source| ==> Names(source[..i + 1]) == Names(source[..i]) + {NameOf(source[i])}
  {
    assert forall k :: 0 <= k < i ==> source[..i][k] == source[..j][k];
    if i < |source| {
      assert forall k :: 0 <= k < i ==> source[..i][k] == source[..i + 1][k];
      assert source[..i + 1][i] == source[i];
      assert forall k :: 0 <= k < i + 1 && k != i ==> source[..i + 1][k] == source[..i][k];
    }
  }

  lemma NamesOfLast(slots: seq<Stats>)
    requires slots != []
    ensures Names(slots) == Names(slots[..|slots| - 1]) + {NameOf(slots[|slots| - 1])}
  {
    NamesOfPrefix(slots, |slots| - 1, |slots| - 1);
    assert slots[..|slots| - 1 + 1] == slots;
  }

  lemma {:induction false} UniqueSize(slots: seq<Stats>)
    requires Unique(slots)
    ensures |Names(slots)| == |slots|
  {
    if slots != [] {
      var front, e := slots[..|slots| - 1], slots[|slots| - 1];
      UniqueSize(front);
      NamesOfLast(slots);
      assert NameOf(e) !in Names(front);
    }
  }

  // ---------- The join of histories ----------

  function Join(a: History, b: History): History {
    map n | n in a.Keys + b.Keys ::
      if n in a && n in b then Newest(a[n], b[n]) else if n in a then a[n] else b[n]
  }

  ghost predicate Below(a: History, b: History) {
    forall n :: n in a ==> n in b && !IsNewer(a[n], b[n])
  }

  // ---------- Absorbing one slot ----------

  function Find(slots: seq<Stats>, name: string): (k: nat)
    ensures k <= |slots|
    ensures k < |slots| ==> NameOf(slots[k]) == name
    ensures forall i :: 0 <= i < k ==> NameOf(slots[i]) != name
    ensures k == |slots| <==> name !in Names(slots)
  {
    if slots == [] then 0
    else if NameOf(slots[0]) == name then 0
    else
      assert forall i :: 0 < i < |slots| ==> slots[1..][i - 1] == slots[i];
      1 + Find(slots[1..], name)
  }

  function Absorb(slots: seq<Stats>, e: Stats): seq<Stats> {
    var k := Find(slots, NameOf(e));
    if k == |slots| then slots + [e]
    else if IsNewer(e.snapshot, slots[k].snapshot) then slots[k := e]
    else slots
  }

  lemma AbsorbKeepsUnique(slots: seq<Stats>, e: Stats)
    requires Unique(slots)
    ensures Unique(Absorb(slots, e))
  {
  }

  lemma AppendPuts(slots: seq<Stats>, e: Stats)
    ensures View(slots + [e]) == Put(View(slots), NameOf(e), e.snapshot)
  {
    assert (slots + [e])[..|slots|] == slots;
  }

  lemma PutKnown(h: History, n: string, s: Snapshot)
    requires n in h
    ensures Put(h, n, s) == if IsNewer(s, h[n]) then h[n := s] else h
  {
  }

  lemma AbsorbPuts(slots: seq<Stats>, e: Stats)
    requires Unique(slots)
    ensures View(Absorb(slots, e)) == Put(View(slots), NameOf(e), e.snapshot)
  {
    var k := Find(slots, NameOf(e));
    if k == |slots| {
      AppendPuts(slots, e);
    } else {
      ViewOfUnique(slots, k);
      PutKnown(View(slots), NameOf(e), e.snapshot);
      if IsNewer(e.snapshot, slots[k].snapshot) {
        UpdatePuts(slots, k, e);
      }
    }
  }

  lemma ViewOfUnique(slots: seq<Stats>, k: nat)
    requires Unique(slots) && k < |slots|
    ensures NameOf(slots[k]) in View(slots) && View(slots)[NameOf(slots[k])] == slots[k].snapshot
  {
    ViewIsNewest(slots, NameOf(slots[k]), slots[k].snapshot);
  }

  lemma UpdateKeepsNames(slots: seq<Stats>, k: nat, e: Stats)
    requires Unique(slots) && k < |slots| && NameOf(slots[k]) == NameOf(e)
    ensures Unique(slots[k := e]) && Names(slots[k := e]) == Names(slots)
  {
    assert forall i :: 0 <= i < |slots| ==> NameOf(slots[k := e][i]) == NameOf(slots[i]);
  }

  lemma UpdateAt(slots: seq<Stats>, k: nat, e: Stats, i: nat)
    requires Unique(slots) && k < |slots| && NameOf(slots[k]) == NameOf(e) && i < |slots|
    ensures NameOf(slots[i]) in View(slots) && NameOf(slots[i]) in View(slots[k := e])
    ensures View(slots[k := e])[NameOf(slots[i])] == if i == k then e.snapshot else View(slots)[NameOf(slots[i])]
  {
    UpdateKeepsNames(slots, k, e);
    ViewOfUnique(slots, i);
    ViewOfUnique(slots[k := e], i);
  }

  lemma UpdatePutsAt(slots: seq<Stats>, k: nat, e: Stats, n: string)
    requires Unique(slots) && k < |slots| && NameOf(slots[k]) == NameOf(e) && n in Names(slots)
    ensures n in View(slots[k := e]) && View(slots[k := e])[n] == View(slots)[NameOf(e) := e.snapshot][n]
  {
    var i :| 0 <= i < |slots| && NameOf(slots[i]) == n;
    UpdateAt(slots, k, e, i);
  }

  lemma UpdatePuts(slots: seq<Stats>, k: nat, e: Stats)
    requires Unique(slots) && k < |slots| && NameOf(slots[k]) == NameOf(e)
    ensures View(slots[k := e]) == View(slots)[NameOf(e) := e.snapshot]
  {
    UpdateKeepsNames(slots, k, e);
    forall n | n in Names(slots) ensures View(slots[k := e])[n] == View(slots)[NameOf(e) := e.snapshot][n] {
      UpdatePutsAt(slots, k, e, n);
    }
  }

  // ---------- Absorbing a sequence of slots ----------

  function AbsorbAll(slots: seq<Stats>, source: seq<Stats>): seq<Stats> {
    if source == [] then slots else
    var last := |source| - 1;
    Absorb(AbsorbAll(slots, source[..last]), source[last])
  }

  lemma {:induction false} AbsorbAllJoins(slots: seq<Stats>, source: seq<Stats>)
    requires Unique(slots)
    ensures Unique(AbsorbAll(slots, source))
    ensures View(AbsorbAll(slots, source)) == Join(View(slots), View(source))
  {
    if source != [] {
      var last := |source| - 1;
      var front, e := source[..last], source[last];
      AbsorbAllJoins(slots, front);
      var mid := AbsorbAll(slots, front);
      AbsorbKeepsUnique(mid, e);
      AbsorbPuts(mid, e);
      JoinPut(View(slots), View(front), NameOf(e), e.snapshot);
    } else {
      assert Join(View(slots), map[]) == View(slots);
    }
  }

  lemma JoinPut(a: History, b: History, n: string, s: Snapshot)
    ensures Put(Join(a, b), n, s) == Join(a, Put(b, n, s))
  {
    if n in a && n in b {
      assert Newest(Newest(a[n], b[n]), s) == Newest(a[n], Newest(b[n], s));
    }
  }

  /** The first loop of `merge_history_into_sample`: one slot per name, first-seen order. */
  function Compact(slots: seq<Stats>): seq<Stats> {
    AbsorbAll([], slots)
  }

  lemma CompactStep(slots: seq<Stats>, i: nat)
    requires i < |slots|
    ensures Compact(slots[..i + 1]) == Absorb(Compact(slots[..i]), slots[i])
  {
    assert slots[..i + 1][..i] == slots[..i];
  }

  lemma CompactKeepsView(slots: seq<Stats>)
    ensures Unique(Compact(slots)) && View(Compact(slots)) == View(slots)
    ensures Names(Compact(slots)) == Names(slots) && |Compact(slots)| == |Names(slots)|
  {
    AbsorbAllJoins([], slots);
    JoinEmpty(View(slots));
    UniqueSize(AbsorbAll([], slots));
  }

  lemma JoinEmpty(h: History)
    ensures Join(map[], h) == h && Join(h, map[]) == h
  {
  }

  // ---------- Which slots are left, and where ----------

  /** The first among the newest entries of its name. */
  ghost predicate IsFirstNewest(entries: seq<Stats>, e: Stats, i: int) {
    0 <= i < |entries| && entries[i] == e &&
    forall j :: 0 <= j < |entries| && NameOf(entries[j]) == NameOf(e) ==>
      !IsNewer(entries[j].snapshot, e.snapshot) && (j < i ==> IsNewer(e.snapshot, entries[j].snapshot))
  }

  ghost predicate HasFirstNewest(entries: seq<Stats>, e: Stats) {
    exists i :: IsFirstNewest(entries, e, i)
  }

  ghost predicate HoldsFirstNewest(entries: seq<Stats>, slots: seq<Stats>) {
    forall k :: 0 <= k < |slots| ==> HasFirstNewest(entries, slots[k])
  }

  /** Slots stand in the order in which their names first appear. */
  ghost predicate InFirstOrder(entries: seq<Stats>, slots: seq<Stats>) {
    forall k, i :: 0 <= k < |slots| && 0 <= i < |entries| && NameOf(entries[i]) == NameOf(slots[k]) ==>
      Names(slots[..k]) <= Names(entries[..i])
  }

  /** One slot per name, in the order of first appearance, each the first newest entry of its name. */
  ghost predicate IsDigest(entries: seq<Stats>, slots: seq<Stats>) {
    Unique(slots) && Names(slots) == Names(entries) && HoldsFirstNewest(entries, slots) && InFirstOrder(entries, slots)
  }

  lemma OldEntryStaysNewest(entries: seq<Stats>, e: Stats, f: Stats, i: int)
    requires IsFirstNewest(entries, f, i)
    requires NameOf(e) == NameOf(f) ==> !IsNewer(e.snapshot, f.snapshot)
    ensures IsFirstNewest(entries + [e], f, i)
  {
    assert forall j :: 0 <= j < |entries| ==> (entries + [e])[j] == entries[j];
  }

  lemma NewEntryIsNewest(entries: seq<Stats>, e: Stats)
    requires forall j :: 0 <= j < |entries| && NameOf(entries[j]) == NameOf(e) ==> IsNewer(e.snapshot, entries[j].snapshot)
    ensures IsFirstNewest(entries + [e], e, |entries|)
  {
    assert forall j :: 0 <= j < |entries| ==> (entries + [e])[j] == entries[j];
  }

  lemma NewerThanNewest(entries: seq<Stats>, e: Stats, f: Stats, i: int)
    requires IsFirstNewest(entries, f, i) && NameOf(e) == NameOf(f) && IsNewer(e.snapshot, f.snapshot)
    ensures IsFirstNewest(entries + [e], e, |entries|)
  {
    NewEntryIsNewest(entries, e);
  }

  lemma AbsorbHoldsAt(entries: seq<Stats>, slots: seq<Stats>, e: Stats, k: nat)
    requires IsDigest(entries, slots) && k < |Absorb(slots, e)|
    ensures HasFirstNewest(entries + [e], Absorb(slots, e)[k])
  {
    var after, at := Absorb(slots, e), Find(slots, NameOf(e));
    if k == |slots| {
      assert forall j :: 0 <= j < |entries| ==> NameOf(entries[j]) in Names(entries);
      NewEntryIsNewest(entries, e);
      assert after[k] == e;
    } else {
      assert HasFirstNewest(entries, slots[k]);
      var i :| IsFirstNewest(entries, slots[k], i);
      if k == at && IsNewer(e.snapshot, slots[k].snapshot) {
        NewerThanNewest(entries, e, slots[k], i);
        assert after[k] == e;
      } else {
        assert after[k] == slots[k];
        OldEntryStaysNewest(entries, e, slots[k], i);
      }
    }
  }

  lemma AbsorbHoldsNewest(entries: seq<Stats>, slots: seq<Stats>, e: Stats)
    requires IsDigest(entries, slots)
    ensures HoldsFirstNewest(entries + [e], Absorb(slots, e))
  {
    var more, after := entries + [e], Absorb(slots, e);
    forall k | 0 <= k < |after| ensures HasFirstNewest(more, after[k]) {
      AbsorbHoldsAt(entries, slots, e, k);
    }
  }

  lemma AbsorbNames(slots: seq<Stats>, e: Stats, k: nat)
    requires k <= |slots|
    ensures |slots| <= |Absorb(slots, e)|
    ensures Names(Absorb(slots, e)[..k]) == Names(slots[..k])
    ensures Names(Absorb(slots, e)) == Names(slots) + {NameOf(e)}
  {
    var after, at := Absorb(slots, e), Find(slots, NameOf(e));
    assert forall i :: 0 <= i < |slots| ==> NameOf(after[i]) == NameOf(slots[i]);
    assert forall i :: 0 <= i < k ==> NameOf(after[..k][i]) == NameOf(slots[..k][i]);
    if at == |slots| {
      NamesOfLast(after);
      assert after[..|slots|] == slots;
    } else {
      assert NameOf(slots[at]) in Names(slots);
    }
  }

  lemma AbsorbInOrder(entries: seq<Stats>, slots: seq<Stats>, e: Stats)
    requires IsDigest(entries, slots)
    ensures InFirstOrder(entries + [e], Absorb(slots, e))
  {
    var more, after := entries + [e], Absorb(slots, e);
    assert forall j :: 0 <= j < |entries| ==> more[j] == entries[j] && NameOf(entries[j]) in Names(entries);
    forall k, i | 0 <= k < |after| && 0 <= i < |more| && NameOf(more[i]) == NameOf(after[k])
      ensures Names(after[..k]) <= Names(more[..i])
    {
      AbsorbInOrderAt(entries, slots, e, k, i);
    }
  }

  lemma AbsorbInOrderAt(entries: seq<Stats>, slots: seq<Stats>, e: Stats, k: int, i: int)
    requires IsDigest(entries, slots)
    requires 0 <= k < |Absorb(slots, e)| && 0 <= i <= |entries| && NameOf((entries + [e])[i]) == NameOf(Absorb(slots, e)[k])
    ensures Names(Absorb(slots, e)[..k]) <= Names((entries + [e])[..i])
  {
    AbsorbNames(slots, e, k);
    if i == |entries| {
      NamesOfPrefix(slots, k, |slots|);
      assert slots[..|slots|] == slots && (entries + [e])[..i] == entries;
    } else {
      assert (entries + [e])[..i] == entries[..i];
      assert NameOf(entries[i]) in Names(entries);
    }
  }

  /** What compaction leaves, exactly. */
  lemma {:induction false} CompactIsDigest(entries: seq<Stats>)
    ensures IsDigest(entries, Compact(entries))
  {
    if entries != [] {
      var front, e := entries[..|entries| - 1], entries[|entries| - 1];
      CompactIsDigest(front);
      AbsorbKeepsUnique(Compact(front), e);
      AbsorbNames(Compact(front), e, 0);
      NamesOfLast(entries);
      AbsorbHoldsNewest(front, Compact(front), e);
      AbsorbInOrder(front, Compact(front), e);
      assert entries == front + [e];
    }
  }

  lemma AbsorbLast(slots: seq<Stats>, source: seq<Stats>, e: Stats)
    ensures AbsorbAll(slots, source + [e]) == Absorb(AbsorbAll(slots, source), e)
  {
    assert (source + [e])[..|source|] == source;
  }

  lemma AbsorbTwiceStep(slots: seq<Stats>, a: seq<Stats>, b: seq<Stats>, e: Stats)
    requires AbsorbAll(AbsorbAll(slots, a), b) == AbsorbAll(slots, a + b)
    ensures AbsorbAll(AbsorbAll(slots, a), b + [e]) == AbsorbAll(slots, a + (b + [e]))
  {
    AbsorbLast(AbsorbAll(slots, a), b, e);
    AbsorbLast(slots, a + b, e);
    assert a + b + [e] == a + (b + [e]);
  }

  lemma {:induction false} AbsorbAllTwice(slots: seq<Stats>, a: seq<Stats>, b: seq<Stats>)
    ensures AbsorbAll(AbsorbAll(slots, a), b) == AbsorbAll(slots, a + b)
  {
    if b == [] {
      assert a + b == a;
    } else {
      var front, e := b[..|b| - 1], b[|b| - 1];
      AbsorbAllTwice(slots, a, front);
      assert front + [e] == b;
      AbsorbTwiceStep(slots, a, front, e);
    }
  }

  // ---------- Bounded operations ----------

  /** The slots an operation leaves, and whether it stopped early for lack of room. */
  datatype Outcome = Outcome(slots: seq<Stats>, cut: bool)

  function AbsorbIfRoom(o: Outcome, e: Stats): Outcome {
    if o.cut then o
    else if NameOf(e) !in Names(o.slots) && |o.slots| >= STATS_CAPACITY then Outcome(o.slots, true)
    else Outcome(Absorb(o.slots, e), false)
  }

  function AbsorbBounded(slots: seq<Stats>, source: seq<Stats>): Outcome {
    if source == [] then Outcome(slots, false) else
    var last := |source| - 1;
    AbsorbIfRoom(AbsorbBounded(slots, source[..last]), source[last])
  }

  function Merged(sample: seq<Stats>, source: seq<Stats>): Outcome {
    AbsorbBounded(Compact(sample), source)
  }

  predicate Fits(names: set<string>) {
    |names| <= STATS_CAPACITY
  }

  ghost predicate IsFittingPrefix(names: set<string>, source: seq<Stats>, k: nat) {
    k <= |source| &&
    Fits(names + Names(source[..k])) &&
    (k < |source| ==> !Fits(names + Names(source[..k + 1])))
  }

  lemma SubsetSize(a: set<string>, b: set<string>)
    requires a <= b
    ensures |a| <= |b|
  {
    if a != {} {
      var x :| x in a;
      SubsetSize(a - {x}, b - {x});
    }
  }

  /** A fitting prefix is the longest prefix that fits, and there is only one. */
  lemma FittingPrefixIsLongest(names: set<string>, source: seq<Stats>, k: nat, j: nat)
    requires IsFittingPrefix(names, source, k) && j <= |source|
    ensures Fits(names + Names(source[..j])) <==> j <= k
    ensures IsFittingPrefix(names, source, j) ==> j == k
  {
    if j <= k {
      NamesOfPrefix(source, j, k);
      SubsetSize(names + Names(source[..j]), names + Names(source[..k]));
      if j < k {
        NamesOfPrefix(source, j + 1, k);
        SubsetSize(names + Names(source[..j + 1]), names + Names(source[..k]));
      }
    } else {
      NamesOfPrefix(source, k + 1, j);
      SubsetSize(names + Names(source[..k + 1]), names + Names(source[..j]));
    }
  }

  lemma AbsorbAllNames(slots: seq<Stats>, source: seq<Stats>)
    requires Unique(slots)
    ensures Unique(AbsorbAll(slots, source))
    ensures Names(AbsorbAll(slots, source)) == Names(slots) + Names(source)
    ensures |AbsorbAll(slots, source)| == |Names(slots) + Names(source)|
  {
    AbsorbAllJoins(slots, source);
    UniqueSize(AbsorbAll(slots, source));
    assert View(AbsorbAll(slots, source)).Keys == View(slots).Keys + View(source).Keys;
  }

  lemma RoomForOne(slots: seq<Stats>, e: Stats)
    requires Unique(slots) && |slots| <= STATS_CAPACITY
    ensures AbsorbIfRoom(Outcome(slots, false), e) ==
            if Fits(Names(slots) + {NameOf(e)}) then Outcome(Absorb(slots, e), false)
            else Outcome(slots, true)
  {
    UniqueSize(slots);
    if NameOf(e) in Names(slots) {
      assert Names(slots) + {NameOf(e)} == Names(slots);
    }
  }

  lemma BoundedStep(slots: seq<Stats>, source: seq<Stats>, last: nat)
    requires Unique(slots) && |source| == last + 1
    requires Fits(Names(slots) + Names(source[..last]))
    ensures AbsorbIfRoom(Outcome(AbsorbAll(slots, source[..last]), false), source[last]) ==
            if Fits(Names(slots) + Names(source)) then Outcome(AbsorbAll(slots, source), false)
            else Outcome(AbsorbAll(slots, source[..last]), true)
  {
    var front, e := source[..last], source[last];
    NamesOfLast(source);
    assert Names(slots) + Names(source) == Names(slots) + Names(front) + {NameOf(e)};
    AbsorbAllNames(slots, front);
    RoomForOne(AbsorbAll(slots, front), e);
  }

  /** The outcome of a bounded absorption, in terms of the prefix it got through. */
  ghost predicate StopsAt(slots: seq<Stats>, source: seq<Stats>, k: nat) {
    IsFittingPrefix(Names(slots), source, k) &&
    AbsorbBounded(slots, source) == Outcome(AbsorbAll(slots, source[..k]), k < |source|)
  }

  lemma CutIsFinal(slots: seq<Stats>, source: seq<Stats>, last: nat)
    requires |source| == last + 1 && AbsorbBounded(slots, source[..last]).cut
    ensures AbsorbBounded(slots, source) == AbsorbBounded(slots, source[..last])
  {
  }

  lemma StopsEarlier(slots: seq<Stats>, source: seq<Stats>, last: nat, k: nat)
    requires |source| == last + 1 && k < last && StopsAt(slots, source[..last], k)
    ensures StopsAt(slots, source, k)
  {
    CutIsFinal(slots, source, last);
    assert source[..last][..k] == source[..k];
    assert source[..last][..k + 1] == source[..k + 1];
  }

  lemma StopsAtLast(slots: seq<Stats>, source: seq<Stats>, last: nat)
    requires Unique(slots) && |source| == last + 1 && StopsAt(slots, source[..last], last)
    ensures StopsAt(slots, source, if Fits(Names(slots) + Names(source)) then last + 1 else last)
  {
    assert source[..last][..last] == source[..last];
    assert source[..last + 1] == source;
    BoundedStep(slots, source, last);
  }

  lemma StopsAtStart(slots: seq<Stats>)
    requires Unique(slots) && |slots| <= STATS_CAPACITY
    ensures StopsAt(slots, [], 0)
  {
    AbsorbAllNames(slots, []);
  }

  lemma {:induction false} AbsorbBoundedStops(slots: seq<Stats>, source: seq<Stats>)
    requires Unique(slots) && |slots| <= STATS_CAPACITY
    ensures exists k: nat :: StopsAt(slots, source, k)
  {
    if source == [] {
      StopsAtStart(slots);
    } else {
      var last := |source| - 1;
      AbsorbBoundedStops(slots, source[..last]);
      var k: nat :| StopsAt(slots, source[..last], k);
      if k < last {
        StopsEarlier(slots, source, last, k);
      } else {
        StopsAtLast(slots, source, last);
      }
    }
  }

  /**
   The law of `merge_history_into_sample`: whatever the slots hold, it leaves one slot per
   name, in the order of first appearance and within capacity, with the newest snapshots
   over the sample and over the longest prefix of the source whose names fit; it stops
   early exactly when the names of both do not all fit.
   */
  lemma MergeIsBoundedJoin(sample: seq<Stats>, source: seq<Stats>) returns (k: nat)
    requires |sample| <= STATS_CAPACITY
    ensures IsFittingPrefix(Names(sample), source, k)
    ensures IsDigest(sample + source[..k], Merged(sample, source).slots)
    ensures Unique(Merged(sample, source).slots)
    ensures |Merged(sample, source).slots| <= STATS_CAPACITY
    ensures View(Merged(sample, source).slots) == Join(View(sample), View(source[..k]))
    ensures Merged(sample, source).cut <==> !Fits(Names(sample) + Names(source))
  {
    var compact := Compact(sample);
    CompactKeepsView(sample);
    NamesBound(sample);
    AbsorbBoundedStops(compact, source);
    k :| StopsAt(compact, source, k);
    AbsorbAllJoins(compact, source[..k]);
    AbsorbAllNames(compact, source[..k]);
    AbsorbAllTwice([], sample, source[..k]);
    CompactIsDigest(sample + source[..k]);
    PrefixIsWhole(Names(sample), source, k);
  }

  lemma PrefixIsWhole(names: set<string>, source: seq<Stats>, k: nat)
    requires IsFittingPrefix(names, source, k)
    ensures k == |source| <==> Fits(names + Names(source))
  {
    FittingPrefixIsLongest(names, source, k, |source|);
    assert source[..|source|] == source;
  }

  lemma {:induction false} NamesBound(slots: seq<Stats>)
    ensures |Names(slots)| <= |slots|
  {
    if slots != [] {
      var last := |slots| - 1;
      NamesBound(slots[..last]);
      NamesOfLast(slots);
    }
  }

  /** When every name fits, merging is exactly the join of the two histories. */
  lemma MergeIsJoin(sample: seq<Stats>, source: seq<Stats>)
    requires |sample| <= STATS_CAPACITY
    requires Fits(Names(sample) + Names(source))
    ensures !Merged(sample, source).cut
    ensures View(Merged(sample, source).slots) == Join(View(sample), View(source))
  {
    var k := MergeIsBoundedJoin(sample, source);
    PrefixIsWhole(Names(sample), source, k);
    assert source[..|source|] == source;
  }

  /** Absorbing a slot that is already there changes nothing. */
  lemma AbsorbKnown(slots: seq<Stats>, i: nat)
    requires Unique(slots) && i < |slots|
    ensures AbsorbIfRoom(Outcome(slots, false), slots[i]) == Outcome(slots, false)
  {
    var k := Find(slots, NameOf(slots[i]));
    assert k == i by {
      assert NameOf(slots[i]) in Names(slots);
    }
  }

  lemma {:induction false} AbsorbOwn(slots: seq<Stats>, i: nat)
    requires Unique(slots) && i <= |slots|
    ensures AbsorbBounded(slots, slots[..i]) == Outcome(slots, false)
  {
    if i > 0 {
      AbsorbOwn(slots, i - 1);
      assert slots[..i][..i - 1] == slots[..i - 1];
      AbsorbKnown(slots, i - 1);
    }
  }

  lemma AbsorbSelf(slots: seq<Stats>)
    requires Unique(slots)
    ensures AbsorbBounded(slots, slots) == Outcome(slots, false)
  {
    AbsorbOwn(slots, |slots|);
    assert slots[..|slots|] == slots;
  }

  /** Merging what compaction leaves into itself changes nothing more, whatever the slots hold. */
  lemma SelfMergeCompacts(slots: seq<Stats>)
    ensures Merged(slots, Compact(slots)) == Outcome(Compact(slots), false)
  {
    CompactKeepsView(slots);
    AbsorbSelf(Compact(slots));
  }

  // ---------- set_sample ----------

  function SetSlot(slots: seq<Stats>, name: string, s: Snapshot): Outcome {
    var k := Find(slots, name);
    if k < |slots| then
      Outcome(if IsNewer(s, slots[k].snapshot) then slots[k := slots[k].(snapshot := s)] else slots, false)
    else if |slots| >= STATS_CAPACITY then Outcome(slots, true)
    else Outcome(slots + [Stats(StoredName(name), s)], false)
  }

  /** The name under which `set_sample` files a node. */
  function FiledName(name: string): string {
    UntilNul(StoredName(name))
  }

  /**
   `set_sample` puts the snapshot under the name it files, unless there is no room; it
   keeps names unique exactly when it does not file a new slot under a name already taken.
   */
  lemma SetSlotPuts(slots: seq<Stats>, name: string, s: Snapshot)
    requires Unique(slots) && |slots| <= STATS_CAPACITY
    ensures |SetSlot(slots, name, s).slots| <= STATS_CAPACITY
    ensures SetSlot(slots, name, s).cut <==> !Fits(Names(slots) + {name})
    ensures Unique(SetSlot(slots, name, s).slots) <==>
              name in Names(slots) || |slots| == STATS_CAPACITY || FiledName(name) !in Names(slots)
    ensures SetSlot(slots, name, s).cut ==> SetSlot(slots, name, s).slots == slots
    ensures !SetSlot(slots, name, s).cut ==>
              View(SetSlot(slots, name, s).slots) ==
              Put(View(slots), if name in Names(slots) then name else FiledName(name), s)
  {
    UniqueSize(slots);
    if name in Names(slots) {
      assert Names(slots) + {name} == Names(slots);
      SetKnownSlot(slots, name, s);
    } else {
      assert |Names(slots) + {name}| == |slots| + 1;
      if |slots| < STATS_CAPACITY {
        SetFreshSlot(slots, Stats(StoredName(name), s));
      }
    }
  }

  /** The slot is the first with the name. */
  ghost predicate IsFirstNamed(slots: seq<Stats>, name: string, i: int) {
    0 <= i < |slots| && NameOf(slots[i]) == name && forall h :: 0 <= h < i ==> NameOf(slots[h]) != name
  }

  /**
   Where `set_sample` writes: slots keep their places and names, the first with the name
   takes the snapshot if that is newer, and a new slot comes last.
   */
  lemma SetSlotPlaces(slots: seq<Stats>, name: string, s: Snapshot)
    ensures var r := SetSlot(slots, name, s).slots;
            && |slots| <= |r|
            && (forall i :: 0 <= i < |slots| ==> r[i].nodeName == slots[i].nodeName)
            && (forall i :: 0 <= i < |slots| ==>
                  r[i].snapshot == if IsFirstNamed(slots, name, i) && IsNewer(s, slots[i].snapshot) then s else slots[i].snapshot)
    ensures var r := SetSlot(slots, name, s);
            if (forall i :: 0 <= i < |slots| ==> NameOf(slots[i]) != name) && |slots| < STATS_CAPACITY
            then |r.slots| == |slots| + 1 && r.slots[|slots|] == Stats(StoredName(name), s)
            else |r.slots| == |slots|
  {
  }

  lemma SetKnownSlot(slots: seq<Stats>, name: string, s: Snapshot)
    requires Unique(slots) && name in Names(slots)
    ensures Unique(SetSlot(slots, name, s).slots)
    ensures |SetSlot(slots, name, s).slots| == |slots|
    ensures View(SetSlot(slots, name, s).slots) == Put(View(slots), name, s)
  {
    var k := Find(slots, name);
    var e := slots[k].(snapshot := s);
    assert NameOf(e) == name;
    assert SetSlot(slots, name, s).slots == Absorb(slots, e);
    AbsorbPuts(slots, e);
    AbsorbKeepsUnique(slots, e);
  }

  lemma SetFreshSlot(slots: seq<Stats>, e: Stats)
    requires Unique(slots)
    ensures Unique(slots + [e]) <==> NameOf(e) !in Names(slots)
    ensures View(slots + [e]) == Put(View(slots), NameOf(e), e.snapshot)
  {
    AppendPuts(slots, e);
    if NameOf(e) in Names(slots) {
      var i :| 0 <= i < |slots| && NameOf(slots[i]) == NameOf(e);
      assert NameOf((slots + [e])[i]) == NameOf((slots + [e])[|slots|]);
    }
  }

  lemma AppendIsAbove(slots: seq<Stats>, e: Stats)
    ensures Below(View(slots), View(slots + [e]))
  {
    AppendPuts(slots, e);
  }

  lemma ReplaceIsAbove(slots: seq<Stats>, k: nat, e: Stats)
    requires k < |slots| && NameOf(e) == NameOf(slots[k]) && IsNewer(e.snapshot, slots[k].snapshot)
    ensures Below(View(slots), View(slots[k := e]))
  {
    forall n | n in View(slots) ensures n in View(slots[k := e]) && !IsNewer(View(slots)[n], View(slots[k := e])[n]) {
      ReplaceIsAboveAt(slots, k, e, n);
    }
  }

  lemma ReplaceIsAboveAt(slots: seq<Stats>, k: nat, e: Stats, n: string)
    requires k < |slots| && NameOf(e) == NameOf(slots[k]) && IsNewer(e.snapshot, slots[k].snapshot)
    requires n in View(slots)
    ensures n in View(slots[k := e]) && !IsNewer(View(slots)[n], View(slots[k := e])[n])
  {
    var replaced := slots[k := e];
    ViewHoldsNewest(slots, n);
    var i :| 0 <= i < |slots| && NameOf(slots[i]) == n && slots[i].snapshot == View(slots)[n];
    assert NameOf(replaced[i]) == n && !IsNewer(slots[i].snapshot, replaced[i].snapshot);
    assert n in Names(replaced);
    ViewHoldsNewest(replaced, n);
  }

  /** Whatever the slots and the name, `set_sample` stays within capacity and takes nothing back. */
  lemma SetSlotIsAbove(slots: seq<Stats>, name: string, s: Snapshot)
    requires |slots| <= STATS_CAPACITY
    ensures |SetSlot(slots, name, s).slots| <= STATS_CAPACITY
    ensures Below(View(slots), View(SetSlot(slots, name, s).slots))
  {
    var k := Find(slots, name);
    if k == |slots| {
      AppendIsAbove(slots, Stats(StoredName(name), s));
    } else if IsNewer(s, slots[k].snapshot) {
      ReplaceIsAbove(slots, k, slots[k].(snapshot := s));
    }
  }

  /** Two calls with one over-long name leave two slots with the same name. */
  lemma LongNameIsDuplicated(name: string, s: Snapshot)
    requires !ShortName(name)
    ensures !Unique(SetSlot(SetSlot([], name, s).slots, name, s).slots)
  {
    StoredNameReadsBack(name, s);
    var once := SetSlot([], name, s).slots;
    var twice := SetSlot(once, name, s).slots;
    assert NameOf(once[0]) != name;
    assert |twice| == 2 && NameOf(twice[0]) == NameOf(twice[1]);
  }
}
