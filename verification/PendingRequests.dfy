/**
 The client's table of pending requests: its operations, and every interleaving of
 senders, responders and pruners that share it.
 */
module PendingRequests {
  import opened Integers
  import opened Options

  /** What is kept to answer a request: a bare promise, a callback, or a callback that also wants the request. */
  datatype CallbackInfo = Promise | Callback(id: nat) | CallbackWithRequest(id: nat, request: string)

  datatype Pending = Pending(sentAt: int, value: CallbackInfo)

  type Table = map<int64, Pending>

  /** The effect of a response: the promise is set and the callback, if any, is called. */
  datatype Completion = Completion(number: int64, value: CallbackInfo, response: string)

  function Emplaced(table: Table, n: int64, p: Pending): Table {
    if n in table then table else table[n := p]
  }

  function NotOlder(table: Table, point: int): Table {
    map n | n in table && !(table[n].sentAt < point) :: table[n]
  }

  class Client {
    var pending: Table
    var completions: seq<Completion>

    constructor ()
      ensures pending == map[] && completions == []
    {
      pending, completions := map[], [];
    }

    /** `sent` is what rcl_send_request gave: a sequence number, or a failure that is thrown on. */
    method AsyncSendRequest(sent: Option<int64>, now: int, value: CallbackInfo) returns (number: Option<int64>)
      modifies `pending
      ensures number == sent
      ensures sent.None? ==> pending == old(pending)
      ensures sent.Some? ==> pending == Emplaced(old(pending), sent.value, Pending(now, value))
      ensures sent.Some? && sent.value !in old(pending) ==> pending == old(pending)[sent.value := Pending(now, value)]
      ensures sent.Some? && sent.value in old(pending) ==> pending == old(pending)
    {
      if sent.None? {
        return None;
      }
      var n := sent.value;
      if n !in pending {
        pending := pending[n := Pending(now, value)];
      }
      return Some(n);
    }

    method GetAndErase(n: int64) returns (value: Option<CallbackInfo>)
      modifies `pending
      ensures pending == old(pending) - {n}
      ensures value == if n in old(pending) then Some(old(pending)[n].value) else None
    {
      if n !in pending {
        return None;
      }
      value := Some(pending[n].value);
      pending := pending - {n};
    }

    method HandleResponse(n: int64, response: string)
      modifies this
      ensures pending == old(pending) - {n}
      ensures completions == old(completions) +
              if n in old(pending) then [Completion(n, old(pending)[n].value, response)] else []
    {
      var value := GetAndErase(n);
      if value.None? {
        return;
      }
      completions := completions + [Completion(n, value.value, response)];
    }

    method RemovePendingRequest(n: int64) returns (removed: bool)
      modifies `pending
      ensures removed <==> n in old(pending)
      ensures pending == old(pending) - {n}
    {
      removed := n in pending;
      pending := pending - {n};
    }

    method PrunePendingRequests() returns (count: nat)
      modifies `pending
      ensures pending == map[] && count == |old(pending)|
    {
      count := |pending|;
      pending := map[];
    }

    /** The iterator loop, in whatever order the hash table is visited. */
    method PruneRequestsOlderThan(point: int) returns (count: nat, pruned: seq<int64>)
      modifies `pending
      ensures pending == NotOlder(old(pending), point)
      ensures forall n :: n in pending <==> n in old(pending) && point <= old(pending)[n].sentAt
      ensures forall n :: n in pending ==> pending[n] == old(pending)[n]
      ensures forall n :: n in pruned <==> n in old(pending) && n !in pending
      ensures forall i, j :: 0 <= i < j < |pruned| ==> pruned[i] != pruned[j]
      ensures count == |pruned| == |old(pending)| - |pending|
    {
      var before := pending;
      pruned := [];
      var todo := before.Keys;
      while todo != {}
        invariant todo <= before.Keys && pending == NotOlderOr(before, todo, point)
        invariant Listed(before, pending, pruned)
      {
        var n :| n in todo;
        VisitOne(before, todo, point, n);
        if pending[n].sentAt < point {
          ListOne(before, pending, pruned, n);
          pruned := pruned + [n];
          pending := pending - {n};
        }
        todo := todo - {n};
      }
      count := |before| - |pending|;
    }
  }

  /** What is left when the loop has yet to visit `todo`. */
  function NotOlderOr(table: Table, todo: set<int64>, point: int): Table {
    map n | n in table && (n in todo || !(table[n].sentAt < point)) :: table[n]
  }

  lemma VisitOne(table: Table, todo: set<int64>, point: int, n: int64)
    requires n in todo && n in table
    ensures NotOlderOr(table, todo - {n}, point) ==
            if table[n].sentAt < point then NotOlderOr(table, todo, point) - {n} else NotOlderOr(table, todo, point)
  {
  }

  /** The list has what the table has lost, once each. */
  ghost predicate Listed(before: Table, table: Table, pruned: seq<int64>) {
    (forall n :: n in pruned <==> n in before && n !in table) &&
    (forall i, j :: 0 <= i < j < |pruned| ==> pruned[i] != pruned[j]) &&
    |pruned| + |table| == |before|
  }

  lemma ListOne(before: Table, table: Table, pruned: seq<int64>, n: int64)
    requires Listed(before, table, pruned) && n in before && n in table
    ensures Listed(before, table - {n}, pruned + [n])
  {
    assert (table - {n}).Keys == table.Keys - {n};
  }

  // ---------- Interleavings ----------

  /**
   The shared state and what became of every request. A send is three steps, because the
   request leaves for the server while the lock is held and before the table knows it; a
   response is two, because it is delivered after the lock is released.
   */
  datatype State = State(
    sender: Option<nat>,             // the thread inside async_send_request_impl, holding the lock
    leaving: Option<int64>,          // the number that rcl returned and the table does not hold yet
    pending: Table,
    taken: map<nat, int64>,          // what responder threads have erased and not yet delivered
    sent: set<int64>,
    completed: seq<int64>,
    removed: set<int64>,
    pruned: set<int64>)

  datatype Step =
    | LockToSend(thread: nat)
    | RclSends(thread: nat, number: int64)
    | RclFails(thread: nat)
    | Insert(thread: nat, now: int, value: CallbackInfo)
    | TakeResponse(thread: nat, number: int64)
    | Deliver(thread: nat)
    | Remove(number: int64)
    | PruneAll
    | PruneOlderThan(point: int)

  const START: State := State(None, None, map[], map[], {}, [], {}, {})

  predicate Enabled(s: State, step: Step) {
    match step
    case LockToSend(_) => s.sender.None?
    case RclSends(t, n) => s.sender == Some(t) && s.leaving.None? && n !in s.sent
    case RclFails(t) => s.sender == Some(t) && s.leaving.None?
    case Insert(t, _, _) => s.sender == Some(t) && s.leaving.Some?
    case TakeResponse(t, _) => s.sender.None? && t !in s.taken
    case Deliver(t) => t in s.taken
    case Remove(_) => s.sender.None?
    case PruneAll => s.sender.None?
    case PruneOlderThan(_) => s.sender.None?
  }

  function Apply(s: State, step: Step): State
    requires Enabled(s, step)
  {
    match step
    case LockToSend(t) => s.(sender := Some(t))
    case RclSends(_, n) => s.(leaving := Some(n), sent := s.sent + {n})
    case RclFails(_) => s.(sender := None)
    case Insert(_, now, value) =>
      s.(pending := Emplaced(s.pending, s.leaving.value, Pending(now, value)), leaving := None, sender := None)
    case TakeResponse(t, n) =>
      if n in s.pending then s.(pending := s.pending - {n}, taken := s.taken[t := n]) else s
    case Deliver(t) => s.(taken := s.taken - {t}, completed := s.completed + [s.taken[t]])
    case Remove(n) =>
      if n in s.pending then s.(pending := s.pending - {n}, removed := s.removed + {n}) else s
    case PruneAll => s.(pending := map[], pruned := s.pruned + s.pending.Keys)
    case PruneOlderThan(point) =>
      s.(pending := NotOlder(s.pending, point), pruned := s.pruned + (s.pending.Keys - NotOlder(s.pending, point).Keys))
  }

  /** Any sequence of steps; one that cannot happen changes nothing. */
  function Run(steps: seq<Step>): State {
    if steps == [] then START else
    var s, step := Run(steps[..|steps| - 1]), steps[|steps| - 1];
    if Enabled(s, step) then Apply(s, step) else s
  }

  function Completed(s: State): set<int64> {
    set n | n in s.completed
  }

  function Leaving(s: State): set<int64> {
    if s.leaving.Some? then {s.leaving.value} else {}
  }

  /** Every sent request is in exactly one place. */
  ghost predicate Conserved(s: State) {
    s.sent == Leaving(s) + s.pending.Keys + s.taken.Values + Completed(s) + s.removed + s.pruned &&
    Leaving(s) !! s.pending.Keys !! s.taken.Values !! Completed(s) !! s.removed !! s.pruned
  }

  ghost predicate AtMostOnce(s: State) {
    (forall t, u :: t in s.taken && u in s.taken && s.taken[t] == s.taken[u] ==> t == u) &&
    (forall i, j :: 0 <= i < j < |s.completed| ==> s.completed[i] != s.completed[j])
  }

  ghost predicate LeavesUnderLock(s: State) {
    s.leaving.Some? ==> s.sender.Some?
  }

  lemma DeliverKeeps(s: State, t: nat)
    requires t in s.taken && Conserved(s) && AtMostOnce(s)
    ensures Conserved(Apply(s, Deliver(t))) && AtMostOnce(Apply(s, Deliver(t)))
  {
    var s', n := Apply(s, Deliver(t)), s.taken[t];
    assert n in s.taken.Values;
    assert s'.taken.Values == s.taken.Values - {n} by {
      forall m | m in s.taken.Values && m != n ensures m in s'.taken.Values {
        var u :| u in s.taken && s.taken[u] == m;
        assert u in s'.taken && s'.taken[u] == m;
      }
    }
    assert Completed(s') == Completed(s) + {n};
    assert n !in Completed(s);
  }

  lemma TakeKeeps(s: State, t: nat, n: int64)
    requires Enabled(s, TakeResponse(t, n)) && Conserved(s) && AtMostOnce(s)
    ensures Conserved(Apply(s, TakeResponse(t, n))) && AtMostOnce(Apply(s, TakeResponse(t, n)))
  {
    if n in s.pending {
      var s' := Apply(s, TakeResponse(t, n));
      assert s'.taken.Values == s.taken.Values + {n} by {
        assert s'.taken[t] == n;
        forall m | m in s.taken.Values ensures m in s'.taken.Values {
          var u :| u in s.taken && s.taken[u] == m;
          assert s'.taken[u] == m;
        }
      }
      assert s'.pending.Keys == s.pending.Keys - {n};
    }
  }

  /** Requests that leave the table for one other place. */
  lemma MoveKeeps(s: State, s': State, moved: set<int64>)
    requires Conserved(s) && moved <= s.pending.Keys && s'.pending.Keys == s.pending.Keys - moved
    requires s'.leaving == s.leaving && s'.taken == s.taken && s'.sent == s.sent && s'.completed == s.completed
    requires (s'.removed == s.removed + moved && s'.pruned == s.pruned) ||
             (s'.removed == s.removed && s'.pruned == s.pruned + moved)
    ensures Conserved(s')
  {
    assert Completed(s') == Completed(s);
  }

  lemma SendKeeps(s: State, step: Step)
    requires Enabled(s, step) && (step.RclSends? || step.Insert?) && Conserved(s)
    ensures Conserved(Apply(s, step))
  {
    var s' := Apply(s, step);
    assert Completed(s') == Completed(s) && s'.taken == s.taken;
    if step.Insert? {
      assert s'.pending.Keys == s.pending.Keys + Leaving(s);
    }
  }

  lemma StepConserves(s: State, step: Step)
    requires Enabled(s, step) && Conserved(s) && AtMostOnce(s)
    ensures Conserved(Apply(s, step))
  {
    var s' := Apply(s, step);
    match step
    case Deliver(t) => DeliverKeeps(s, t);
    case TakeResponse(t, n) => TakeKeeps(s, t, n);
    case RclSends(_, _) => SendKeeps(s, step);
    case Insert(_, _, _) => SendKeeps(s, step);
    case Remove(n) => MoveKeeps(s, s', s.pending.Keys * {n});
    case PruneAll => MoveKeeps(s, s', s.pending.Keys);
    case PruneOlderThan(point) => MoveKeeps(s, s', s.pending.Keys - s'.pending.Keys);
    case _ => MoveKeeps(s, s', {});
  }

  lemma StepKeepsOnce(s: State, step: Step)
    requires Enabled(s, step) && Conserved(s) && AtMostOnce(s) && LeavesUnderLock(s)
    ensures AtMostOnce(Apply(s, step)) && LeavesUnderLock(Apply(s, step))
  {
    match step
    case Deliver(t) => DeliverKeeps(s, t);
    case TakeResponse(t, n) => TakeKeeps(s, t, n);
    case _ =>
  }

  /** In every interleaving no request is lost, duplicated or completed twice. */
  lemma {:induction false} RunConservesRequests(steps: seq<Step>)
    ensures Conserved(Run(steps)) && AtMostOnce(Run(steps)) && LeavesUnderLock(Run(steps))
  {
    if steps != [] {
      var front, step := steps[..|steps| - 1], steps[|steps| - 1];
      RunConservesRequests(front);
      if Enabled(Run(front), step) {
        StepConserves(Run(front), step);
        StepKeepsOnce(Run(front), step);
      }
    }
  }

  /**
   A response to a sent request is dropped as unknown exactly when the request was already
   answered, removed or pruned: the lock is held from before the request leaves until the
   table holds it.
   */
  lemma NoOwedResponseIsDropped(steps: seq<Step>, t: nat, n: int64)
    requires Enabled(Run(steps), TakeResponse(t, n)) && n in Run(steps).sent
    ensures var s := Run(steps);
            n !in s.pending <==> n in s.taken.Values || n in s.completed || n in s.removed || n in s.pruned
  {
    RunConservesRequests(steps);
    assert n in Completed(Run(steps)) <==> n in Run(steps).completed;
  }

  // ---------- The life of one request ----------

  datatype Fate = Unsent | Departing | Waiting(entry: Pending) | Taken(thread: nat) | Answered | Dropped | Expired

  /** Where the request is. */
  ghost predicate HasFate(s: State, n: int64, f: Fate) {
    match f
    case Unsent => n !in s.sent
    case Departing => s.leaving == Some(n)
    case Waiting(entry) => n in s.pending && s.pending[n] == entry
    case Taken(t) => t in s.taken && s.taken[t] == n
    case Answered => n in s.completed
    case Dropped => n in s.removed
    case Expired => n in s.pruned
  }

  /** What a step makes of a request: what it does to this one, and nothing to all others. */
  function NextFate(n: int64, f: Fate, step: Step): Fate {
    match (f, step)
    case (Unsent, RclSends(_, m)) => if m == n then Departing else f
    case (Departing, Insert(_, now, value)) => Waiting(Pending(now, value))
    case (Waiting(_), TakeResponse(t, m)) => if m == n then Taken(t) else f
    case (Waiting(_), Remove(m)) => if m == n then Dropped else f
    case (Waiting(_), PruneAll) => Expired
    case (Waiting(entry), PruneOlderThan(point)) => if entry.sentAt < point then Expired else f
    case (Taken(t), Deliver(u)) => if t == u then Answered else f
    case _ => f
  }

  lemma FateIsUnique(s: State, n: int64, f: Fate, g: Fate)
    requires Conserved(s) && AtMostOnce(s) && HasFate(s, n, f) && HasFate(s, n, g)
    ensures f == g
  {
    assert forall t :: t in s.taken ==> s.taken[t] in s.taken.Values;
    assert forall m :: m in s.completed <==> m in Completed(s);
  }

  lemma SomeFate(s: State, n: int64) returns (f: Fate)
    requires Conserved(s)
    ensures HasFate(s, n, f)
  {
    if n !in s.sent {
      f := Unsent;
    } else if n in Leaving(s) {
      f := Departing;
    } else if n in s.pending {
      f := Waiting(s.pending[n]);
    } else if n in s.taken.Values {
      var t :| t in s.taken && s.taken[t] == n;
      f := Taken(t);
    } else if n in Completed(s) {
      f := Answered;
    } else {
      f := if n in s.removed then Dropped else Expired;
    }
  }

  lemma StepFollowsFate(s: State, step: Step, n: int64, f: Fate)
    requires Enabled(s, step) && Conserved(s) && AtMostOnce(s) && HasFate(s, n, f)
    ensures HasFate(Apply(s, step), n, NextFate(n, f, step))
  {
    assert forall t :: t in s.taken ==> s.taken[t] in s.taken.Values;
    assert f == Departing ==> n in Leaving(s);
  }

  /** In every interleaving each request has one fate, and the next step moves it as its own life has it. */
  lemma RequestsLiveOneLife(steps: seq<Step>, step: Step, n: int64, f: Fate)
    requires Enabled(Run(steps), step)
    ensures exists g :: HasFate(Run(steps), n, g)
    ensures HasFate(Run(steps), n, f) ==> forall g :: HasFate(Apply(Run(steps), step), n, g) <==> g == NextFate(n, f, step)
  {
    var s := Run(steps);
    RunConservesRequests(steps);
    var g := SomeFate(s, n);
    if HasFate(s, n, f) {
      StepFollowsFate(s, step, n, f);
      StepConserves(s, step);
      StepKeepsOnce(s, step);
      forall h | HasFate(Apply(s, step), n, h) ensures h == NextFate(n, f, step) {
        FateIsUnique(Apply(s, step), n, h, NextFate(n, f, step));
      }
    }
  }

  /** What became of a request is final. */
  lemma {:induction false} FatesAreFinal(steps: seq<Step>, i: nat)
    requires i <= |steps|
    ensures Run(steps[..i]).completed <= Run(steps).completed
    ensures Run(steps[..i]).removed <= Run(steps).removed && Run(steps[..i]).pruned <= Run(steps).pruned
  {
    if i == |steps| {
      assert steps[..i] == steps;
    } else {
      FatesAreFinal(steps[..|steps| - 1], i);
      assert steps[..|steps| - 1][..i] == steps[..i];
    }
  }
}
