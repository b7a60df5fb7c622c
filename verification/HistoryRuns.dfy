/**
 Whole runs: any order and grouping of merges, and any sequence of `set_sample` and
 `merge_history_into_sample` calls on one message.
 */
module HistoryRuns {
  import opened Integers
  import opened NodeHistory

  // ---------- Merging messages in any order and grouping ----------

  datatype MergeTree = Message(slots: seq<Stats>) | Merge(into: MergeTree, from: MergeTree)

  ghost predicate WithinCapacity(t: MergeTree) {
    match t
    case Message(slots) => |slots| <= STATS_CAPACITY
    case Merge(into, from) => WithinCapacity(into) && WithinCapacity(from)
  }

  function Evaluate(t: MergeTree): seq<Stats> {
    match t
    case Message(slots) => slots
    case Merge(into, from) => Merged(Evaluate(into), Evaluate(from)).slots
  }

  function Messages(t: MergeTree): set<seq<Stats>> {
    match t
    case Message(slots) => {slots}
    case Merge(into, from) => Messages(into) + Messages(from)
  }

  function AllNames(messages: set<seq<Stats>>): set<string> {
    set m, n | m in messages && n in Names(m) :: n
  }

  /** The snapshot is the newest any of the messages holds for the node. */
  ghost predicate IsNewestAmong(messages: set<seq<Stats>>, n: string, s: Snapshot) {
    IsHeld(messages, n, s) && IsBound(messages, n, s)
  }

  lemma {:induction false} EvaluateNames(t: MergeTree)
    requires WithinCapacity(t) && Fits(AllNames(Messages(t)))
    ensures |Evaluate(t)| <= STATS_CAPACITY
    ensures View(Evaluate(t)).Keys == AllNames(Messages(t))
  {
    match t
    case Message(slots) =>
      assert slots in Messages(t);
    case Merge(into, from) =>
      UnionNames(Messages(into), Messages(from));
      EvaluateNames(into);
      EvaluateNames(from);
      EvaluateJoins(Evaluate(into), Evaluate(from));
  }

  lemma EvaluateJoins(into: seq<Stats>, from: seq<Stats>)
    requires |into| <= STATS_CAPACITY && Fits(View(into).Keys + View(from).Keys)
    ensures |Merged(into, from).slots| <= STATS_CAPACITY
    ensures View(Merged(into, from).slots) == Join(View(into), View(from))
  {
    MergeIsJoin(into, from);
    var _ := MergeIsBoundedJoin(into, from);
  }

  lemma UnionNames(ms: set<seq<Stats>>, ns: set<seq<Stats>>)
    ensures AllNames(ms + ns) == AllNames(ms) + AllNames(ns)
    ensures Fits(AllNames(ms + ns)) ==> Fits(AllNames(ms)) && Fits(AllNames(ns))
  {
    assert AllNames(ms + ns) == AllNames(ms) + AllNames(ns);
    SubsetSize(AllNames(ms), AllNames(ms + ns));
    SubsetSize(AllNames(ns), AllNames(ms + ns));
  }

  /** Whatever the tree of merges, a node ends with the newest snapshot any message held. */
  lemma {:induction false} EvaluateIsNewest(t: MergeTree, n: string)
    requires WithinCapacity(t) && Fits(AllNames(Messages(t)))
    requires n in AllNames(Messages(t))
    ensures n in View(Evaluate(t)) && IsNewestAmong(Messages(t), n, View(Evaluate(t))[n])
  {
    EvaluateNames(t);
    match t
    case Message(slots) =>
      assert slots in Messages(t);
    case Merge(into, from) =>
      UnionNames(Messages(into), Messages(from));
      EvaluateNames(into);
      EvaluateNames(from);
      EvaluateJoins(Evaluate(into), Evaluate(from));
      if n in AllNames(Messages(into)) {
        EvaluateIsNewest(into, n);
      }
      if n in AllNames(Messages(from)) {
        EvaluateIsNewest(from, n);
      }
      JoinOfNewest(Messages(into), Messages(from), View(Evaluate(into)), View(Evaluate(from)), n);
  }

  ghost predicate IsHeld(messages: set<seq<Stats>>, n: string, s: Snapshot) {
    exists m :: m in messages && n in View(m) && View(m)[n] == s
  }

  ghost predicate IsBound(messages: set<seq<Stats>>, n: string, s: Snapshot) {
    forall m :: m in messages && n in View(m) ==> !IsNewer(View(m)[n], s)
  }

  lemma HeldInUnion(ms: set<seq<Stats>>, ns: set<seq<Stats>>, n: string, s: Snapshot)
    requires IsHeld(ms, n, s)
    ensures IsHeld(ms + ns, n, s) && IsHeld(ns + ms, n, s)
  {
    var m :| m in ms && n in View(m) && View(m)[n] == s;
    assert m in ms + ns && m in ns + ms;
  }

  lemma BoundInUnion(ms: set<seq<Stats>>, ns: set<seq<Stats>>, n: string, s: Snapshot)
    requires IsBound(ms, n, s) && IsBound(ns, n, s)
    ensures IsBound(ms + ns, n, s)
  {
  }

  lemma BoundOfNewer(ms: set<seq<Stats>>, n: string, s: Snapshot, t: Snapshot)
    requires IsBound(ms, n, s) && !IsNewer(s, t)
    ensures IsBound(ms, n, t)
  {
  }

  lemma BoundIfUnnamed(ms: set<seq<Stats>>, n: string, s: Snapshot)
    requires n !in AllNames(ms)
    ensures IsBound(ms, n, s)
  {
    assert forall m :: m in ms && n in View(m) ==> n in Names(m);
  }

  lemma JoinIsBound(ms: set<seq<Stats>>, a: History, n: string, s: Snapshot)
    requires n in a <==> n in AllNames(ms)
    requires n in a ==> IsNewestAmong(ms, n, a[n]) && !IsNewer(a[n], s)
    ensures IsBound(ms, n, s)
  {
    if n in a {
      BoundOfNewer(ms, n, a[n], s);
    } else {
      BoundIfUnnamed(ms, n, s);
    }
  }

  lemma JoinIsHeld(ms: set<seq<Stats>>, ns: set<seq<Stats>>, a: History, b: History, n: string)
    requires n in Join(a, b)
    requires n in a ==> IsHeld(ms, n, a[n])
    requires n in b ==> IsHeld(ns, n, b[n])
    ensures IsHeld(ms + ns, n, Join(a, b)[n])
  {
    if n in a && Join(a, b)[n] == a[n] {
      HeldInUnion(ms, ns, n, a[n]);
    } else {
      HeldInUnion(ns, ms, n, b[n]);
    }
  }

  lemma JoinOfNewest(ms: set<seq<Stats>>, ns: set<seq<Stats>>, a: History, b: History, n: string)
    requires n in Join(a, b)
    requires n in a <==> n in AllNames(ms)
    requires n in b <==> n in AllNames(ns)
    requires n in a ==> IsNewestAmong(ms, n, a[n])
    requires n in b ==> IsNewestAmong(ns, n, b[n])
    ensures IsNewestAmong(ms + ns, n, Join(a, b)[n])
  {
    var s := Join(a, b)[n];
    JoinIsHeld(ms, ns, a, b, n);
    JoinIsBound(ms, a, n, s);
    JoinIsBound(ns, b, n, s);
    BoundInUnion(ms, ns, n, s);
  }

  /**
   Merging the same messages gives the same history, whatever the order, the grouping and
   the repetitions, as long as all their names fit.
   */
  lemma MergeOrderIsIrrelevant(t: MergeTree, u: MergeTree)
    requires WithinCapacity(t) && WithinCapacity(u)
    requires Messages(t) == Messages(u) && Fits(AllNames(Messages(t)))
    ensures View(Evaluate(t)) == View(Evaluate(u))
  {
    EvaluateNames(t);
    EvaluateNames(u);
    forall n | n in AllNames(Messages(t)) ensures View(Evaluate(t))[n] == View(Evaluate(u))[n] {
      SameSnapshot(t, u, n);
    }
    SameHistory(View(Evaluate(t)), View(Evaluate(u)));
  }

  lemma {:induction false} EvaluateStaysWithin(t: MergeTree)
    requires WithinCapacity(t)
    ensures |Evaluate(t)| <= STATS_CAPACITY
  {
    match t
    case Message(slots) =>
    case Merge(into, from) =>
      EvaluateStaysWithin(into);
      OneMerge(Evaluate(into), Evaluate(from));
  }

  lemma {:induction false} MessagesAreWithin(t: MergeTree, m: seq<Stats>)
    requires WithinCapacity(t) && m in Messages(t)
    ensures |m| <= STATS_CAPACITY
  {
    match t
    case Message(slots) =>
    case Merge(into, from) =>
      if m in Messages(into) {
        MessagesAreWithin(into, m);
      } else {
        MessagesAreWithin(from, m);
      }
  }

  /** A message whose name the tree of merges lost for lack of room. */
  lemma SomeNameIsLost(t: MergeTree) returns (m: seq<Stats>, n: string)
    requires WithinCapacity(t) && !Fits(AllNames(Messages(t)))
    ensures m in Messages(t) && n in View(m) && n !in View(Evaluate(t))
  {
    EvaluateStaysWithin(t);
    NamesBound(Evaluate(t));
    if AllNames(Messages(t)) <= Names(Evaluate(t)) {
      SubsetSize(AllNames(Messages(t)), Names(Evaluate(t)));
      assert false;
    }
    n :| n in AllNames(Messages(t)) && n !in Names(Evaluate(t));
    m :| m in Messages(t) && n in Names(m);
  }

  /** Merging the tree into such a message instead gives another history. */
  lemma OrderMattersWithoutRoom(t: MergeTree) returns (u: MergeTree)
    requires WithinCapacity(t) && !Fits(AllNames(Messages(t)))
    ensures WithinCapacity(u) && Messages(u) == Messages(t) && View(Evaluate(u)) != View(Evaluate(t))
  {
    var m, n := SomeNameIsLost(t);
    MessagesAreWithin(t, m);
    u := Merge(Message(m), t);
    SameMessagesAgain(m, t);
    MergeKeepsName(m, Evaluate(t), n);
    assert Evaluate(u) == Merged(m, Evaluate(t)).slots;
  }

  lemma SameMessagesAgain(m: seq<Stats>, t: MergeTree)
    requires m in Messages(t)
    ensures Messages(Merge(Message(m), t)) == Messages(t)
  {
    assert Messages(Message(m)) == {m};
  }

  lemma MergeKeepsName(slots: seq<Stats>, source: seq<Stats>, n: string)
    requires |slots| <= STATS_CAPACITY && n in View(slots)
    ensures n in View(Merged(slots, source).slots)
  {
    OneMerge(slots, source);
  }

  ghost predicate SameMessages(t: MergeTree, u: MergeTree) {
    WithinCapacity(u) && Messages(u) == Messages(t)
  }

  /** All ways of merging some messages give the same history if and only if all their names fit. */
  lemma MergeOrderIsIrrelevantExactly(t: MergeTree)
    requires WithinCapacity(t)
    ensures (forall u :: SameMessages(t, u) ==> View(Evaluate(u)) == View(Evaluate(t))) <==> Fits(AllNames(Messages(t)))
  {
    if Fits(AllNames(Messages(t))) {
      forall u | SameMessages(t, u) ensures View(Evaluate(u)) == View(Evaluate(t)) {
        MergeOrderIsIrrelevant(t, u);
      }
    } else {
      var u := OrderMattersWithoutRoom(t);
      assert SameMessages(t, u);
    }
  }

  lemma SameHistory(a: History, b: History)
    requires a.Keys == b.Keys && forall n :: n in a ==> a[n] == b[n]
    ensures a == b
  {
  }

  lemma SameSnapshot(t: MergeTree, u: MergeTree, n: string)
    requires WithinCapacity(t) && WithinCapacity(u)
    requires Messages(t) == Messages(u) && Fits(AllNames(Messages(t))) && n in AllNames(Messages(t))
    ensures n in View(Evaluate(t)) && n in View(Evaluate(u)) && View(Evaluate(t))[n] == View(Evaluate(u))[n]
  {
    EvaluateIsNewest(t, n);
    EvaluateIsNewest(u, n);
    NewestAmongIsUnique(Messages(t), n, View(Evaluate(t))[n], View(Evaluate(u))[n]);
  }

  lemma NewestAmongIsUnique(ms: set<seq<Stats>>, n: string, s: Snapshot, t: Snapshot)
    requires IsNewestAmong(ms, n, s) && IsNewestAmong(ms, n, t)
    ensures s == t
  {
    assert !IsNewer(s, t) && !IsNewer(t, s);
  }

  /** Slot order, unlike the history, does depend on the order of merging. */
  lemma SlotOrderDependsOnMergeOrder(p: Stats, q: Stats)
    requires NameOf(p) != NameOf(q)
    ensures Merged([p], [q]).slots == [p, q]
    ensures Merged([q], [p]).slots == [q, p]
  {
    MergeOfTwo(p, q);
    MergeOfTwo(q, p);
  }

  lemma MergeOfTwo(p: Stats, q: Stats)
    requires NameOf(p) != NameOf(q)
    ensures Merged([p], [q]).slots == [p, q]
  {
    assert [p][..0] == [] && [q][..0] == [];
    assert AbsorbAll([], [p][..0]) == [];
    assert Absorb([], p) == [p];
    assert AbsorbBounded([p], [q][..0]) == Outcome([p], false);
    assert Find([p], NameOf(q)) == 1;
  }

  // ---------- Runs of operations on one message ----------

  datatype Operation = SetNode(name: string, snapshot: Snapshot) | MergeFrom(source: seq<Stats>)

  datatype State = State(slots: seq<Stats>, overflow: uint64)

  function Perform(s: State, op: Operation): State {
    var r := match op
      case SetNode(name, snapshot) => SetSlot(s.slots, name, snapshot)
      case MergeFrom(source) => Merged(s.slots, source);
    State(r.slots, if r.cut then Incremented(s.overflow) else s.overflow)
  }

  /** The state that a new message and a zero counter reach. */
  function Run(ops: seq<Operation>): State {
    if ops == [] then State([], 0) else
    Perform(Run(ops[..|ops| - 1]), ops[|ops| - 1])
  }

  ghost predicate ShortNames(ops: seq<Operation>) {
    forall i :: 0 <= i < |ops| && ops[i].SetNode? ==> ShortName(ops[i].name)
  }

  /** What an operation has to offer, capacity aside. */
  function Offer(op: Operation): History {
    match op
    case SetNode(name, snapshot) => map[name := snapshot]
    case MergeFrom(source) => View(source)
  }

  /** The message is full and has no slot for a name that the operation brings. */
  predicate LacksRoom(s: State, op: Operation) {
    match op
    case SetNode(name, _) => name !in Names(s.slots) && |s.slots| == STATS_CAPACITY
    case MergeFrom(source) => !Fits(Names(s.slots) + Names(source))
  }

  /** The number of operations that met a message without room for all their names. */
  function CountLackingRoom(ops: seq<Operation>): nat {
    if ops == [] then 0 else
    var front, op := ops[..|ops| - 1], ops[|ops| - 1];
    CountLackingRoom(front) + if LacksRoom(Run(front), op) then 1 else 0
  }

  /** With unique names, room is lacking exactly when the names do not fit together. */
  lemma LackingIsUnfit(s: State, op: Operation)
    requires Unique(s.slots) && |s.slots| <= STATS_CAPACITY
    ensures LacksRoom(s, op) <==> !Fits(View(s.slots).Keys + Offer(op).Keys)
  {
    if op.SetNode? {
      FitsOneMore(s.slots, op.name);
      assert Offer(op).Keys == {op.name};
    }
  }

  lemma FitsOneMore(slots: seq<Stats>, name: string)
    requires Unique(slots) && |slots| <= STATS_CAPACITY
    ensures Fits(Names(slots) + {name}) <==> name in Names(slots) || |slots| < STATS_CAPACITY
  {
    UniqueSize(slots);
    if name in Names(slots) {
      assert Names(slots) + {name} == Names(slots);
    }
  }

  lemma OneOperation(s: State, op: Operation)
    requires Unique(s.slots) && |s.slots| <= STATS_CAPACITY
    requires op.SetNode? ==> ShortName(op.name)
    ensures Unique(Perform(s, op).slots)
    ensures !LacksRoom(s, op) ==> View(Perform(s, op).slots) == Join(View(s.slots), Offer(op))
  {
    LackingIsUnfit(s, op);
    match op
    case SetNode(name, snapshot) => OneSet(s.slots, name, snapshot);
    case MergeFrom(source) => OneMerge(s.slots, source);
  }

  lemma OneSet(slots: seq<Stats>, name: string, snapshot: Snapshot)
    requires Unique(slots) && |slots| <= STATS_CAPACITY && ShortName(name)
    ensures var r := SetSlot(slots, name, snapshot);
            && Unique(r.slots)
            && (r.cut <==> !Fits(View(slots).Keys + map[name := snapshot].Keys))
            && (!r.cut ==> View(r.slots) == Join(View(slots), map[name := snapshot]))
  {
    StoredNameReadsBack(name, snapshot);
    assert FiledName(name) == name by {
      assert FiledName(name) == NameOf(Stats(StoredName(name), snapshot));
    }
    SetSlotPuts(slots, name, snapshot);
    PutIsJoin(View(slots), name, snapshot);
  }

  lemma PutIsJoin(h: History, n: string, s: Snapshot)
    ensures Put(h, n, s) == Join(h, map[n := s])
    ensures map[n := s].Keys == {n}
  {
  }

  lemma OneMerge(slots: seq<Stats>, source: seq<Stats>)
    requires |slots| <= STATS_CAPACITY
    ensures var r := Merged(slots, source);
            && Unique(r.slots) && |r.slots| <= STATS_CAPACITY
            && Below(View(slots), View(r.slots))
            && (r.cut <==> !Fits(View(slots).Keys + View(source).Keys))
            && (!r.cut ==> View(r.slots) == Join(View(slots), View(source)))
  {
    var k := MergeIsBoundedJoin(slots, source);
    JoinIsAbove(View(slots), View(source[..k]));
    if Fits(Names(slots) + Names(source)) {
      MergeIsJoin(slots, source);
    }
  }

  lemma JoinIsAbove(a: History, b: History)
    ensures Below(a, Join(a, b)) && Below(b, Join(a, b))
  {
  }

  /** Whatever the slots hold and the call names, the message stays within capacity and nothing is taken back. */
  lemma OperationIsAbove(s: State, op: Operation)
    requires |s.slots| <= STATS_CAPACITY
    ensures |Perform(s, op).slots| <= STATS_CAPACITY
    ensures Below(View(s.slots), View(Perform(s, op).slots))
  {
    match op
    case SetNode(name, snapshot) => SetSlotIsAbove(s.slots, name, snapshot);
    case MergeFrom(source) => OneMerge(s.slots, source);
  }

  /** Over any run the message stays within capacity. */
  lemma {:induction false} RunStaysWithin(ops: seq<Operation>)
    ensures |Run(ops).slots| <= STATS_CAPACITY
  {
    if ops != [] {
      RunStaysWithin(ops[..|ops| - 1]);
      OperationIsAbove(Run(ops[..|ops| - 1]), ops[|ops| - 1]);
    }
  }

  /** Over any run no name disappears and no node's snapshot goes back. */
  lemma {:induction false} RunNeverGoesBack(ops: seq<Operation>, i: nat)
    requires i <= |ops|
    ensures Below(View(Run(ops[..i]).slots), View(Run(ops).slots))
  {
    if i == |ops| {
      assert ops[..i] == ops;
    } else {
      var front := ops[..|ops| - 1];
      RunNeverGoesBack(front, i);
      assert front[..i] == ops[..i];
      RunStaysWithin(front);
      OperationIsAbove(Run(front), ops[|ops| - 1]);
    }
  }

  /** The operation does not file a new slot under a name that is taken. */
  predicate FilesApart(s: State, op: Operation) {
    op.SetNode? ==>
      op.name in Names(s.slots) || |s.slots| == STATS_CAPACITY || FiledName(op.name) !in Names(s.slots)
  }

  lemma OperationKeepsUnique(s: State, op: Operation)
    requires Unique(s.slots) && |s.slots| <= STATS_CAPACITY
    ensures Unique(Perform(s, op).slots) <==> FilesApart(s, op)
  {
    match op
    case SetNode(name, snapshot) => SetSlotPuts(s.slots, name, snapshot);
    case MergeFrom(source) => OneMerge(s.slots, source);
  }

  ghost predicate AllFileApart(ops: seq<Operation>) {
    forall i :: 0 <= i < |ops| ==> FilesApart(Run(ops[..i]), ops[i])
  }

  lemma FilesApartPrefix(ops: seq<Operation>, n: nat)
    requires AllFileApart(ops) && n <= |ops|
    ensures AllFileApart(ops[..n])
  {
    forall i | 0 <= i < n ensures FilesApart(Run(ops[..n][..i]), ops[..n][i]) {
      assert ops[..n][..i] == ops[..i];
    }
  }

  lemma {:induction false} FilingApartKeepsUnique(ops: seq<Operation>)
    requires AllFileApart(ops)
    ensures Unique(Run(ops).slots)
  {
    if ops != [] {
      var last := |ops| - 1;
      FilesApartPrefix(ops, last);
      FilingApartKeepsUnique(ops[..last]);
      RunStaysWithin(ops[..last]);
      OperationKeepsUnique(Run(ops[..last]), ops[last]);
    }
  }

  lemma TakenNameIsDuplicated(ops: seq<Operation>, i: nat)
    requires i < |ops| && !FilesApart(Run(ops[..i]), ops[i])
    ensures !Unique(Run(ops[..i]).slots) || !Unique(Run(ops[..i + 1]).slots)
  {
    if Unique(Run(ops[..i]).slots) {
      RunStaysWithin(ops[..i]);
      OperationKeepsUnique(Run(ops[..i]), ops[i]);
      assert ops[..i + 1][..i] == ops[..i];
    }
  }

  /** Throughout a run names are unique if and only if no call files a new slot under a name that is taken. */
  lemma RunKeepsUnique(ops: seq<Operation>)
    ensures (forall i :: 0 <= i <= |ops| ==> Unique(Run(ops[..i]).slots)) <==> AllFileApart(ops)
  {
    if AllFileApart(ops) {
      forall i | 0 <= i <= |ops| ensures Unique(Run(ops[..i]).slots) {
        FilesApartPrefix(ops, i);
        FilingApartKeepsUnique(ops[..i]);
      }
    } else {
      var i :| 0 <= i < |ops| && !FilesApart(Run(ops[..i]), ops[i]);
      TakenNameIsDuplicated(ops, i);
    }
  }

  /** Short names are filed as they are, so they never meet a taken name. */
  lemma ShortNamesFileApart(ops: seq<Operation>)
    requires ShortNames(ops)
    ensures AllFileApart(ops)
  {
    forall i | 0 <= i < |ops| ensures FilesApart(Run(ops[..i]), ops[i]) {
      if ops[i].SetNode? {
        StoredNameReadsBack(ops[i].name, ops[i].snapshot);
        assert FiledName(ops[i].name) == NameOf(Stats(StoredName(ops[i].name), ops[i].snapshot));
      }
    }
  }

  /** The last operation of a run with short names. */
  lemma LastOperation(ops: seq<Operation>)
    requires ShortNames(ops) && ops != []
    ensures var s, op := Run(ops[..|ops| - 1]), ops[|ops| - 1];
            && (LacksRoom(s, op) <==> !Fits(View(s.slots).Keys + Offer(op).Keys))
            && (!LacksRoom(s, op) ==> View(Run(ops).slots) == Join(View(s.slots), Offer(op)))
  {
    var front := ops[..|ops| - 1];
    ShortNamesFileApart(front);
    FilingApartKeepsUnique(front);
    RunStaysWithin(front);
    LackingIsUnfit(Run(front), ops[|ops| - 1]);
    OneOperation(Run(front), ops[|ops| - 1]);
  }

  lemma CountOfLast(ops: seq<Operation>)
    requires ops != []
    ensures var front, op := ops[..|ops| - 1], ops[|ops| - 1];
            CountLackingRoom(ops) == CountLackingRoom(front) + if LacksRoom(Run(front), op) then 1 else 0
  {
  }

  lemma {:induction false} CountIsBounded(ops: seq<Operation>)
    ensures CountLackingRoom(ops) <= |ops|
  {
    if ops != [] {
      CountIsBounded(ops[..|ops| - 1]);
      CountOfLast(ops);
    }
  }

  lemma OperationCounts(s: State, op: Operation)
    requires |s.slots| <= STATS_CAPACITY
    ensures Perform(s, op).overflow == if LacksRoom(s, op) then Incremented(s.overflow) else s.overflow
  {
    match op
    case SetNode(name, snapshot) =>
    case MergeFrom(source) => OneMerge(s.slots, source);
  }

  lemma CountsNext(s: State, s': State, n: nat, n': nat, lacks: bool)
    requires s.overflow == CounterAfter(n) && n' == (if lacks then n + 1 else n)
    requires s'.overflow == if lacks then Incremented(s.overflow) else s.overflow
    ensures s'.overflow == CounterAfter(n')
  {
  }

  /** Over any run the overflow counter is the number of operations that lacked room. */
  lemma {:induction false} OverflowCountsCuts(ops: seq<Operation>)
    ensures Run(ops).overflow == CounterAfter(CountLackingRoom(ops))
  {
    if ops == [] {
      assert CountLackingRoom(ops) == 0;
    } else {
      var front, op := ops[..|ops| - 1], ops[|ops| - 1];
      OverflowCountsCuts(front);
      RunStaysWithin(front);
      OperationCounts(Run(front), op);
      CountOfLast(ops);
      CountsNext(Run(front), Run(ops), CountLackingRoom(front), CountLackingRoom(ops), LacksRoom(Run(front), op));
    }
  }

  /** Everything offered, joined. */
  function Offered(ops: seq<Operation>): History {
    if ops == [] then map[] else Join(Offered(ops[..|ops| - 1]), Offer(ops[|ops| - 1]))
  }

  lemma OfferedNames(ops: seq<Operation>)
    requires ops != []
    ensures Offered(ops).Keys == Offered(ops[..|ops| - 1]).Keys + Offer(ops[|ops| - 1]).Keys
    ensures Fits(Offered(ops).Keys) ==> Fits(Offered(ops[..|ops| - 1]).Keys)
  {
    SubsetSize(Offered(ops[..|ops| - 1]).Keys, Offered(ops).Keys);
  }

  /**
   Over any run with short names, no operation lacks room if and only if all offered names
   fit together, and then the message holds exactly the join of everything offered.
   */
  lemma {:induction false} RunHoldsAllOffered(ops: seq<Operation>)
    requires ShortNames(ops)
    ensures CountLackingRoom(ops) == 0 <==> Fits(Offered(ops).Keys)
    ensures Fits(Offered(ops).Keys) ==> View(Run(ops).slots) == Offered(ops)
  {
    if ops == [] {
      assert View([]) == map[];
    } else {
      RunHoldsAllOffered(ops[..|ops| - 1]);
      LastOperation(ops);
      OfferedNames(ops);
      CountOfLast(ops);
    }
  }

  /** Up to 2^64 - 1 operations, the counter stays zero exactly when all offered names fit together. */
  lemma CounterTellsOverflow(ops: seq<Operation>)
    requires ShortNames(ops)
    ensures Fits(Offered(ops).Keys) ==> Run(ops).overflow == 0
    ensures |ops| <= UINT64_MAX ==> (Run(ops).overflow == 0 <==> Fits(Offered(ops).Keys))
  {
    OverflowCountsCuts(ops);
    RunHoldsAllOffered(ops);
    CountIsBounded(ops);
    CounterIsExact(CountLackingRoom(ops));
  }
}
