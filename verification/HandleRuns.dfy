/**
 Handles and active callbacks in every run: they correspond one to one exactly as long as
 no callback is begun under a token that, after 2^64 others, is still in use.
 */
module HandleRuns {
  import opened Integers
  import opened TrackingState
  import opened TrackingRuns

  predicate IsActive(w: Writer, p: string, t: uint64) {
    t in StateOf(w, p).active
  }

  ghost predicate Holds(s: System, h: nat, p: string, t: uint64) {
    h in s.handles && s.handles[h] == Live(p, t)
  }

  ghost predicate ActiveIsHeld(s: System) {
    forall p, t: uint64 :: IsActive(s.writer, p, t) ==> exists h: nat :: Holds(s, h, p, t)
  }

  /** The active callbacks are those of the live handles, one each. */
  ghost predicate OneHandleEach(s: System) {
    ActiveIsHeld(s) &&
    (forall h: nat, p, t: uint64 :: Holds(s, h, p, t) ==> IsActive(s.writer, p, t)) &&
    (forall h: nat, g: nat, p, t: uint64 :: Holds(s, h, p, t) && Holds(s, g, p, t) ==> h == g)
  }

  function Count<T(==)>(xs: seq<T>, x: T): nat {
    multiset(xs)[x]
  }

  /** Every callback begun has been released once, or is active and has not been. */
  ghost predicate Balanced(s: System) {
    forall p, t: uint64 ::
      Count(s.issued, (p, t)) == Count(s.released, (p, t)) + if IsActive(s.writer, p, t) then 1 else 0
  }

  predicate Begins(step: Step) {
    step.BeginByClock? || step.BeginAt?
  }

  /** The token that the step would use is not in use. */
  predicate TokenIsFree(s: System, step: Step) {
    Begins(step) ==> !IsActive(s.writer, step.producer, NextToken(s.writer, step.producer))
  }

  // ---------- One step ----------

  lemma CountAppend<T>(xs: seq<T>, x: T, y: T)
    ensures Count(xs + [x], y) == Count(xs, y) + if x == y then 1 else 0
  {
  }

  lemma BeginBalances(s: System, h: nat, p: string, entry: uint64)
    requires Balanced(s) && !IsActive(s.writer, p, NextToken(s.writer, p))
    ensures Balanced(BeginHandle(s, h, p, entry))
  {
    var s', token := BeginHandle(s, h, p, entry), NextToken(s.writer, p);
    forall q, t: uint64
      ensures Count(s'.issued, (q, t)) == Count(s'.released, (q, t)) + if IsActive(s'.writer, q, t) then 1 else 0
    {
      CountAppend(s.issued, (p, token), (q, t));
      assert IsActive(s'.writer, q, t) <==> IsActive(s.writer, q, t) || (q, t) == (p, token);
    }
  }

  lemma FinishBalances(s: System, h: nat)
    requires Balanced(s) && OneHandleEach(s) && h in s.handles
    ensures Balanced(Finish(s, h))
  {
    if s.handles[h].Live? {
      var s', p, token := Finish(s, h), s.handles[h].producer, s.handles[h].token;
      assert Holds(s, h, p, token);
      forall q, t: uint64
        ensures Count(s'.issued, (q, t)) == Count(s'.released, (q, t)) + if IsActive(s'.writer, q, t) then 1 else 0
      {
        CountAppend(s.released, (p, token), (q, t));
        assert IsActive(s'.writer, q, t) <==> IsActive(s.writer, q, t) && (q, t) != (p, token);
      }
    }
  }

  lemma BeginIsHeld(s: System, h: nat, p: string, entry: uint64)
    requires ActiveIsHeld(s) && h !in s.handles
    ensures ActiveIsHeld(BeginHandle(s, h, p, entry))
  {
    var s', token := BeginHandle(s, h, p, entry), NextToken(s.writer, p);
    forall q, t: uint64 | IsActive(s'.writer, q, t) ensures exists g: nat :: Holds(s', g, q, t) {
      if (q, t) == (p, token) {
        assert Holds(s', h, q, t);
      } else {
        assert IsActive(s.writer, q, t);
        var g: nat :| Holds(s, g, q, t);
        assert Holds(s', g, q, t);
      }
    }
  }

  lemma BeginKeepsHandles(s: System, h: nat, p: string, entry: uint64)
    requires OneHandleEach(s) && h !in s.handles && !IsActive(s.writer, p, NextToken(s.writer, p))
    ensures OneHandleEach(BeginHandle(s, h, p, entry))
  {
    var s', token := BeginHandle(s, h, p, entry), NextToken(s.writer, p);
    BeginIsHeld(s, h, p, entry);
    assert forall q, t: uint64 :: IsActive(s'.writer, q, t) <==> IsActive(s.writer, q, t) || (q, t) == (p, token);
    assert forall g: nat, q, t: uint64 :: Holds(s', g, q, t) <==> Holds(s, g, q, t) || (g, q, t) == (h, p, token);
  }

  /** A callback begun under a token in use shares it with another handle. */
  lemma TakenTokenIsShared(s: System, h: nat, p: string, entry: uint64)
    requires OneHandleEach(s) && h !in s.handles && IsActive(s.writer, p, NextToken(s.writer, p))
    ensures !OneHandleEach(BeginHandle(s, h, p, entry))
  {
    var s', token := BeginHandle(s, h, p, entry), NextToken(s.writer, p);
    var g: nat :| Holds(s, g, p, token);
    assert Holds(s', g, p, token) && Holds(s', h, p, token);
  }

  lemma FinishIsHeld(s: System, h: nat)
    requires ActiveIsHeld(s) && h in s.handles
    ensures ActiveIsHeld(Finish(s, h))
    ensures Finish(s, h).handles == s.handles[h := Empty]
  {
    if s.handles[h].Live? {
      var s', p, t := Finish(s, h), s.handles[h].producer, s.handles[h].token;
      forall q, u: uint64 | IsActive(s'.writer, q, u) ensures exists g: nat :: Holds(s', g, q, u) {
        assert IsActive(s.writer, q, u) && (q, u) != (p, t);
        var g: nat :| Holds(s, g, q, u);
        assert Holds(s', g, q, u);
      }
    }
  }

  lemma FinishKeepsHandles(s: System, h: nat)
    requires OneHandleEach(s) && h in s.handles
    ensures OneHandleEach(Finish(s, h))
  {
    FinishIsHeld(s, h);
    if s.handles[h].Live? {
      var s', p, t := Finish(s, h), s.handles[h].producer, s.handles[h].token;
      assert Holds(s, h, p, t);
      assert forall q, u: uint64 :: IsActive(s'.writer, q, u) <==> IsActive(s.writer, q, u) && (q, u) != (p, t);
      assert forall g: nat, q, u: uint64 :: Holds(s', g, q, u) <==> Holds(s, g, q, u) && g != h;
    }
  }

  lemma TransferIsHeld(s: System, h: nat, from: nat)
    requires ActiveIsHeld(s) && from in s.handles && h != from
    requires h in s.handles ==> s.handles[h] == Empty
    ensures ActiveIsHeld(Transfer(s, h, from))
  {
    var s' := Transfer(s, h, from);
    forall p, t: uint64 | IsActive(s'.writer, p, t) ensures exists g: nat :: Holds(s', g, p, t) {
      var g: nat :| Holds(s, g, p, t);
      assert Holds(s', if g == from then h else g, p, t);
    }
  }

  lemma TransferKeepsHandles(s: System, h: nat, from: nat)
    requires OneHandleEach(s) && from in s.handles && h != from
    requires h in s.handles ==> s.handles[h] == Empty
    ensures OneHandleEach(Transfer(s, h, from))
  {
    var s' := Transfer(s, h, from);
    TransferIsHeld(s, h, from);
    assert forall g: nat, p, t: uint64 :: Holds(s', g, p, t) <==> g != from && (if g == h then Holds(s, from, p, t) else Holds(s, g, p, t));
  }

  /** The same handles hold the same callbacks, apart from empty ones that come and go. */
  ghost predicate SameCallbacks(s: System, s': System) {
    (forall h: nat, p, t: uint64 :: Holds(s', h, p, t) <==> Holds(s, h, p, t)) &&
    (forall p :: StateOf(s'.writer, p).active == StateOf(s.writer, p).active)
  }

  lemma SameIsHeld(s: System, s': System)
    requires ActiveIsHeld(s) && SameCallbacks(s, s')
    ensures ActiveIsHeld(s')
  {
    forall p, t: uint64 | IsActive(s'.writer, p, t) ensures exists g: nat :: Holds(s', g, p, t) {
      assert IsActive(s.writer, p, t);
      var g: nat :| Holds(s, g, p, t);
      assert Holds(s', g, p, t);
    }
  }

  lemma SameHandles(s: System, s': System)
    requires OneHandleEach(s) && SameCallbacks(s, s')
    ensures OneHandleEach(s')
  {
    SameIsHeld(s, s');
    assert forall p, t: uint64 :: IsActive(s'.writer, p, t) <==> IsActive(s.writer, p, t);
  }

  lemma SameBalance(s: System, s': System)
    requires Balanced(s) && s'.issued == s.issued && s'.released == s.released
    requires forall p :: StateOf(s'.writer, p).active == StateOf(s.writer, p).active
    ensures Balanced(s')
  {
    assert forall p, t: uint64 :: IsActive(s'.writer, p, t) <==> IsActive(s.writer, p, t);
  }

  lemma StepIsHeld(s: System, step: Step)
    requires Enabled(false, s, step) && ActiveIsHeld(s)
    ensures ActiveIsHeld(Apply(s, step))
  {
    match step
    case BeginByClock(h, p, now) =>
      BeginIsHeld(s, h, p, now);
      SameIsHeld(BeginHandle(s, h, p, now), Apply(s, step));
    case BeginAt(h, p, entry) =>
      BeginIsHeld(s, h, p, entry);
    case MoveConstruct(h, from) =>
      TransferIsHeld(s, h, from);
    case MoveAssign(h, from) =>
      if h != from {
        FinishIsHeld(s, h);
        TransferIsHeld(Finish(s, h), h, from);
      }
    case Destroy(h) =>
      FinishIsHeld(s, h);
      SameIsHeld(Finish(s, h), Apply(s, step));
    case _ =>
      SameIsHeld(s, Apply(s, step));
  }

  lemma BeginStepKeepsHandles(s: System, step: Step)
    requires Enabled(false, s, step) && Begins(step) && OneHandleEach(s)
    ensures OneHandleEach(Apply(s, step)) <==> TokenIsFree(s, step)
  {
    var h, p, entry := step.handle, step.producer, if step.BeginByClock? then step.now else step.entry;
    var begun, s' := BeginHandle(s, h, p, entry), Apply(s, step);
    assert SameCallbacks(begun, s') && SameCallbacks(s', begun);
    if TokenIsFree(s, step) {
      BeginKeepsHandles(s, h, p, entry);
      SameHandles(begun, s');
    } else {
      TakenTokenIsShared(s, h, p, entry);
      if OneHandleEach(s') {
        SameHandles(s', begun);
      }
    }
  }

  /** A step keeps the correspondence exactly when its token is free. */
  lemma StepKeepsHandles(s: System, step: Step)
    requires Enabled(false, s, step) && OneHandleEach(s)
    ensures OneHandleEach(Apply(s, step)) <==> TokenIsFree(s, step)
  {
    match step
    case BeginByClock(_, _, _) =>
      BeginStepKeepsHandles(s, step);
    case BeginAt(_, _, _) =>
      BeginStepKeepsHandles(s, step);
    case MoveConstruct(h, from) =>
      TransferKeepsHandles(s, h, from);
    case MoveAssign(h, from) =>
      if h != from {
        FinishKeepsHandles(s, h);
        TransferKeepsHandles(Finish(s, h), h, from);
      }
    case Destroy(h) =>
      FinishKeepsHandles(s, h);
      SameHandles(Finish(s, h), Apply(s, step));
    case _ =>
      SameHandles(s, Apply(s, step));
  }

  lemma StepBalances(s: System, step: Step)
    requires Enabled(false, s, step) && OneHandleEach(s) && Balanced(s) && TokenIsFree(s, step)
    ensures Balanced(Apply(s, step))
  {
    match step
    case BeginByClock(h, p, now) =>
      BeginBalances(s, h, p, now);
      SameBalance(BeginHandle(s, h, p, now), Apply(s, step));
    case BeginAt(h, p, entry) =>
      BeginBalances(s, h, p, entry);
    case MoveAssign(h, from) =>
      FinishBalances(s, h);
      if h != from {
        SameBalance(Finish(s, h), Apply(s, step));
      }
    case Destroy(h) =>
      FinishBalances(s, h);
      SameBalance(Finish(s, h), Apply(s, step));
    case _ =>
      SameBalance(s, Apply(s, step));
  }

  /** Moving hands the callback over, and what the target held, or what is destroyed, is ended. */
  lemma MovesHandOver(s: System, step: Step, g: nat, p: string, t: uint64)
    requires Enabled(false, s, step) && (step.MoveConstruct? || step.MoveAssign? || step.Destroy?)
    ensures step.MoveConstruct? || (step.MoveAssign? && step.handle != step.from) ==>
              (Holds(Apply(s, step), g, p, t) <==>
               g != step.from && Holds(s, if g == step.handle then step.from else g, p, t))
    ensures step.MoveAssign? && step.handle == step.from ==> Apply(s, step) == s
    ensures step.Destroy? ==> (Holds(Apply(s, step), g, p, t) <==> g != step.handle && Holds(s, g, p, t))
    ensures !step.MoveConstruct? && !(step.MoveAssign? && step.handle == step.from) ==>
              (IsActive(Apply(s, step).writer, p, t) <==> IsActive(s.writer, p, t) && !Holds(s, step.handle, p, t))
    ensures step.MoveConstruct? ==> Apply(s, step).writer == s.writer
  {
    match step
    case MoveAssign(h, _) => FinishEnds(s, h, p, t);
    case Destroy(h) => FinishEnds(s, h, p, t);
    case _ =>
  }

  lemma FinishEnds(s: System, h: nat, p: string, t: uint64)
    requires h in s.handles
    ensures IsActive(Finish(s, h).writer, p, t) <==> IsActive(s.writer, p, t) && !Holds(s, h, p, t)
    ensures Finish(s, h).handles == s.handles[h := Empty]
  {
    if s.handles[h].Live? {
      var q := s.handles[h].producer;
      assert StateOf(Finish(s, h).writer, p).active ==
          if p == q then StateOf(s.writer, p).active - {s.handles[h].token} else StateOf(s.writer, p).active;
    }
  }

  // ---------- Every run ----------

  /** Every callback of the run is begun under a token that is free. */
  ghost predicate TokensAreFree(strict: bool, steps: seq<Step>) {
    forall i :: 0 <= i < |steps| ==> StepIsFree(strict, steps[..i], steps[i])
  }

  ghost predicate StepIsFree(strict: bool, before: seq<Step>, step: Step) {
    Enabled(strict, Run(strict, before), step) ==> TokenIsFree(Run(strict, before), step)
  }

  lemma FreePrefix(strict: bool, steps: seq<Step>, n: nat)
    requires TokensAreFree(strict, steps) && n <= |steps|
    ensures TokensAreFree(strict, steps[..n])
  {
    forall i | 0 <= i < n ensures StepIsFree(strict, steps[..n][..i], steps[..n][i]) {
      assert steps[..n][..i] == steps[..i];
    }
  }

  lemma {:induction false} FreeTokensKeepHandles(strict: bool, steps: seq<Step>)
    requires TokensAreFree(strict, steps)
    ensures OneHandleEach(Run(strict, steps)) && Balanced(Run(strict, steps))
  {
    if steps != [] {
      var last := |steps| - 1;
      FreePrefix(strict, steps, last);
      FreeTokensKeepHandles(strict, steps[..last]);
      assert StepIsFree(strict, steps[..last], steps[last]);
      if Enabled(strict, Run(strict, steps[..last]), steps[last]) {
        StepKeepsHandles(Run(strict, steps[..last]), steps[last]);
        StepBalances(Run(strict, steps[..last]), steps[last]);
      }
    }
  }

  lemma TakenTokenBreaksRun(strict: bool, steps: seq<Step>, i: nat)
    requires i < |steps| && !StepIsFree(strict, steps[..i], steps[i])
    ensures !OneHandleEach(Run(strict, steps[..i])) || !OneHandleEach(Run(strict, steps[..i + 1]))
  {
    if OneHandleEach(Run(strict, steps[..i])) {
      StepKeepsHandles(Run(strict, steps[..i]), steps[i]);
      assert steps[..i + 1][..i] == steps[..i];
    }
  }

  /**
   Throughout a run the active callbacks match the live handles if and only if every
   callback is begun under a free token, and then every one is released exactly once.
   */
  lemma RunKeepsHandles(strict: bool, steps: seq<Step>)
    ensures (forall i :: 0 <= i <= |steps| ==> OneHandleEach(Run(strict, steps[..i]))) <==> TokensAreFree(strict, steps)
    ensures TokensAreFree(strict, steps) ==> Balanced(Run(strict, steps))
  {
    if TokensAreFree(strict, steps) {
      FreeTokensKeepHandles(strict, steps);
      forall i | 0 <= i <= |steps| ensures OneHandleEach(Run(strict, steps[..i])) {
        FreePrefix(strict, steps, i);
        FreeTokensKeepHandles(strict, steps[..i]);
      }
    } else {
      var i :| 0 <= i < |steps| && !StepIsFree(strict, steps[..i], steps[i]);
      TakenTokenBreaksRun(strict, steps, i);
    }
  }

  // ---------- Runs of fewer than 2^64 steps ----------

  /** Tokens are numbered from 1 without gaps, so that no two are the same. */
  ghost predicate NeverReissued(s: System) {
    (forall p :: StateOf(s.writer, p).nextCallback <= |s.issued|) &&
    (forall i :: 0 <= i < |s.issued| ==> s.issued[i].1 <= StateOf(s.writer, s.issued[i].0).nextCallback) &&
    (forall i, j :: 0 <= i < j < |s.issued| ==> s.issued[i] != s.issued[j])
  }

  lemma BeginIsNew(s: System, h: nat, p: string, entry: uint64)
    requires NeverReissued(s) && |s.issued| < UINT64_MAX
    ensures NeverReissued(BeginHandle(s, h, p, entry))
    ensures (p, NextToken(s.writer, p)) !in s.issued
  {
    var s', token := BeginHandle(s, h, p, entry), NextToken(s.writer, p);
    assert token == StateOf(s.writer, p).nextCallback + 1;
    assert forall q :: StateOf(s'.writer, q).nextCallback == if q == p then token else StateOf(s.writer, q).nextCallback;
    assert forall i :: 0 <= i < |s.issued| ==> s'.issued[i] == s.issued[i];
  }

  lemma QuietIssuesNothing(s: System, step: Step)
    requires Enabled(false, s, step) && !Begins(step)
    ensures Apply(s, step).issued == s.issued
    ensures forall p :: StateOf(Apply(s, step).writer, p).nextCallback == StateOf(s.writer, p).nextCallback
  {
  }

  /** In a run of fewer than 2^64 steps no token is used twice. */
  lemma {:induction false} ShortRunTokensAreFree(strict: bool, steps: seq<Step>)
    requires |steps| <= UINT64_MAX
    ensures TokensAreFree(strict, steps)
    ensures NeverReissued(Run(strict, steps)) && |Run(strict, steps).issued| <= |steps|
  {
    if steps != [] {
      var last := |steps| - 1;
      var front, step := steps[..last], steps[last];
      ShortRunTokensAreFree(strict, front);
      FreeTokensKeepHandles(strict, front);
      var s := Run(strict, front);
      if Enabled(strict, s, step) {
        if Begins(step) {
          var p, entry := step.producer, if step.BeginByClock? then step.now else step.entry;
          BeginIsNew(s, step.handle, p, entry);
          assert Count(s.issued, (p, NextToken(s.writer, p))) == 0;
          assert TokenIsFree(s, step);
        } else {
          QuietIssuesNothing(s, step);
        }
      }
      assert StepIsFree(strict, front, step);
      FreeExtends(strict, steps, last);
    }
  }

  lemma FreeExtends(strict: bool, steps: seq<Step>, last: nat)
    requires |steps| == last + 1 && TokensAreFree(strict, steps[..last]) && StepIsFree(strict, steps[..last], steps[last])
    ensures TokensAreFree(strict, steps)
  {
    forall i | 0 <= i < |steps| ensures StepIsFree(strict, steps[..i], steps[i]) {
      if i < last {
        assert steps[..last][..i] == steps[..i] && steps[..last][i] == steps[i];
        assert StepIsFree(strict, steps[..last][..i], steps[..last][i]);
      }
    }
  }

  /** In such a run handles and callbacks correspond, and no token is released twice. */
  lemma ShortRunReleasesOnce(strict: bool, steps: seq<Step>)
    requires |steps| <= UINT64_MAX
    ensures OneHandleEach(Run(strict, steps))
    ensures forall i, j :: 0 <= i < j < |Run(strict, steps).released| ==>
              Run(strict, steps).released[i] != Run(strict, steps).released[j]
  {
    ShortRunTokensAreFree(strict, steps);
    FreeTokensKeepHandles(strict, steps);
    var s := Run(strict, steps);
    forall i, j | 0 <= i < j < |s.released| ensures s.released[i] != s.released[j] {
      if s.released[i] == s.released[j] {
        TwiceCounts(s.released, i, j);
        DistinctCount(s.issued, s.released[i]);
      }
    }
  }

  lemma TwiceCounts<T>(xs: seq<T>, i: nat, j: nat)
    requires i < j < |xs| && xs[i] == xs[j]
    ensures Count(xs, xs[i]) >= 2
  {
    assert xs == xs[..j] + xs[j..];
    assert xs[i] in xs[..j] && xs[i] == xs[j..][0];
    assert xs[i] in multiset(xs[..j]) && xs[i] in multiset(xs[j..]);
  }

  lemma {:induction false} DistinctCount<T>(xs: seq<T>, x: T)
    requires forall i, j :: 0 <= i < j < |xs| ==> xs[i] != xs[j]
    ensures Count(xs, x) <= 1
  {
    if xs != [] {
      var last := |xs| - 1;
      DistinctCount(xs[..last], x);
      assert xs == xs[..last] + [xs[last]];
      assert x == xs[last] ==> x !in xs[..last];
    }
  }

  // ---------- A run that reuses a token in use ----------

  /** One callback stays active while `laps` others begin and end. */
  function Laps(p: string, laps: nat): seq<Step> {
    if laps == 0 then [BeginAt(0, p, 0)] else Laps(p, laps - 1) + [BeginAt(1, p, 0)] + [Destroy(1)]
  }

  /** The first callback is the only active one, and `n` have begun. */
  ghost predicate Lapped(s: System, p: string, n: nat) {
    StateOf(s.writer, p) == ProducerState(0, WrapUint64(n), map[1 := 0]) && s.handles == map[0 := Live(p, 1)]
  }

  lemma LapAdvances(s: System, p: string, n: nat)
    requires Lapped(s, p, n) && 1 <= n <= UINT64_MAX
    ensures var begun := Apply(s, BeginAt(1, p, 0)); 1 in begun.handles && Lapped(Apply(begun, Destroy(1)), p, n + 1)
  {
    var begun, token := Apply(s, BeginAt(1, p, 0)), NextToken(s.writer, p);
    WrapSuccessor(n);
    assert token != 1;
    assert StateOf(begun.writer, p).active == map[1 := 0, token := 0];
    assert begun.handles == map[0 := Live(p, 1), 1 := Live(p, token)];
    assert map[1 := 0, token := 0] - {token} == map[1 := 0];
  }

  lemma FirstLap(p: string)
    ensures Lapped(Run(true, Laps(p, 0)), p, 1)
  {
    RunExtends(true, [], BeginAt(0, p, 0));
    assert [] + [BeginAt(0, p, 0)] == Laps(p, 0);
  }

  lemma {:induction false} LapsHoldFirstToken(p: string, laps: nat)
    requires laps <= UINT64_MAX
    ensures Lapped(Run(true, Laps(p, laps)), p, laps + 1)
  {
    if laps == 0 {
      FirstLap(p);
    } else {
      LapsHoldFirstToken(p, laps - 1);
      var before := Laps(p, laps - 1);
      LapAdvances(Run(true, before), p, laps);
      RunExtends(true, before, BeginAt(1, p, 0));
      RunExtends(true, before + [BeginAt(1, p, 0)], Destroy(1));
    }
  }

  /** After 2^64 - 1 others, a callback gets the token of one that is still active. */
  lemma TokenCanBeTaken(p: string)
    ensures exists steps :: !TokensAreFree(true, steps)
  {
    var before := Laps(p, UINT64_MAX);
    LapsHoldFirstToken(p, UINT64_MAX);
    var steps := before + [BeginAt(1, p, 0)];
    assert steps[..|before|] == before && steps[|before|] == BeginAt(1, p, 0);
    assert !StepIsFree(true, steps[..|before|], steps[|before|]);
    assert !TokensAreFree(true, steps);
  }

  // ---------- Reports without delay ----------

  /** In every run, even one that reuses tokens, an active callback has a live handle. */
  lemma {:induction false} RunIsHeld(strict: bool, steps: seq<Step>)
    ensures ActiveIsHeld(Run(strict, steps))
  {
    if steps != [] {
      var front, step := steps[..|steps| - 1], steps[|steps| - 1];
      RunIsHeld(strict, front);
      if Enabled(strict, Run(strict, front), step) {
        StepIsHeld(Run(strict, front), step);
      }
    }
  }

  /** With no live handle, a report says "delivered through now". */
  lemma NoHandleNoDelay(strict: bool, steps: seq<Step>, p: string, now: uint64)
    requires forall h :: h in Run(strict, steps).handles ==> Run(strict, steps).handles[h] == Empty
    ensures Through(StateOf(Run(strict, steps).writer, p).active, now) == now
  {
    var s := Run(strict, steps);
    RunIsHeld(strict, steps);
    var active := StateOf(s.writer, p).active;
    assert forall t: uint64 :: !IsActive(s.writer, p, t);
    assert forall t :: t in active ==> IsActive(s.writer, p, t);
    assert IsThrough(active, now, Through(active, now));
  }
}
