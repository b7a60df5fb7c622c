/** The source schedule: validating its text, latching the epoch, and applying its phases. */
module SourceSchedules {
  import opened Integers
  import opened Options

  datatype Phase = Phase(id: string, offset: int64, period: int64)

  datatype Plan = Plan(session: string, boot: string, hash: string, duration: int64, phases: seq<Phase>)

  const SCHEDULE_MAGIC: string := "LAME_SOURCE_SCHEDULE_V1"
  const START_MAGIC: string := "LAME_SOURCE_START_V1"
  const PHASES: nat := 3

  // ---------- Tokens ----------

  function DigitsValue(s: string): Option<nat> {
    if s == "" then Some(0)
    else if !('0' <= s[|s| - 1] <= '9') then None
    else match DigitsValue(s[..|s| - 1])
      case None => None
      case Some(n) => Some(10 * n + (s[|s| - 1] as int - '0' as int))
  }

  predicate Signed(token: string) {
    token != "" && (token[0] == '-' || token[0] == '+')
  }

  predicate Negative(token: string) {
    token != "" && token[0] == '-'
  }

  /** The digits of a token, which may follow a sign, as a number. */
  function Magnitude(token: string): Option<nat> {
    var digits := if Signed(token) then token[1..] else token;
    if digits == "" then None else DigitsValue(digits)
  }

  /** A token read into an `int64_t`. */
  function ReadInt(token: string): Option<int64> {
    match Magnitude(token)
    case None => None
    case Some(n) =>
      var v: int := if Negative(token) then -(n as int) else n;
      if INT64_MIN <= v <= INT64_MAX then Some(v) else None
  }

  /** A token read into a `size_t`, for which a minus sign wraps around. */
  function ReadSize(token: string): Option<uint64> {
    match Magnitude(token)
    case None => None
    case Some(n) =>
      if n > UINT64_MAX then None
      else if Negative(token) && n > 0 then Some(UINT64_MAX + 1 - n)
      else Some(n)
  }

  predicate SafeChar(c: char) {
    'a' <= c <= 'z' || 'A' <= c <= 'Z' || '0' <= c <= '9' || c == '-' || c == '_' || c == '.'
  }

  predicate SafeToken(token: string) {
    token != "" && token != "." && token != ".." && forall i :: 0 <= i < |token| ==> SafeChar(token[i])
  }

  // ---------- Validation ----------

  /** Offsets ascend from zero within the duration, periods are positive, names safe and distinct. */
  ghost predicate PhasesWellFormed(duration: int64, phases: seq<Phase>) {
    (forall i :: 0 <= i < |phases| ==>
       0 <= phases[i].offset < duration && phases[i].period > 0 && SafeToken(phases[i].id) &&
       (i == 0 ==> phases[i].offset == 0)) &&
    (forall i, j :: 0 <= i < j < |phases| ==>
       phases[i].offset < phases[j].offset && phases[i].id != phases[j].id)
  }

  ghost predicate WellFormed(p: Plan) {
    p.duration > 0 && |p.phases| == PHASES && PhasesWellFormed(p.duration, p.phases)
  }

  /** The plan is for this producer: same source, boot, instance and initial period. */
  ghost predicate IsFor(p: Plan, boot: string, initial: int64)
    requires |p.phases| == PHASES
  {
    p.boot == boot && p.phases[0].period == initial && p.phases[PHASES - 1].period == initial &&
    SafeToken(p.session) && SafeToken(p.boot) && SafeToken(p.hash)
  }

  /** The words that give phase `i`, as a phase. */
  function SpelledPhase(tokens: seq<string>, i: nat): Option<Phase> {
    if |tokens| < 11 + 3 * i then None else
    match (ReadInt(tokens[9 + 3 * i]), ReadInt(tokens[10 + 3 * i]))
    case (Some(offset), Some(period)) => Some(Phase(tokens[8 + 3 * i], offset, period))
    case _ => None
  }

  function SpelledPhases(tokens: seq<string>): Option<seq<Phase>> {
    match (SpelledPhase(tokens, 0), SpelledPhase(tokens, 1), SpelledPhase(tokens, 2))
    case (Some(a), Some(b), Some(c)) => Some([a, b, c])
    case _ => None
  }

  /** The words of a schedule file, as a plan for the source and instance it names. */
  function Spelled(tokens: seq<string>, source: string, instance: string): (r: Option<Plan>)
    ensures r.Some? ==> |r.value.phases| == PHASES
  {
    if |tokens| != 8 + 3 * PHASES || tokens[0] != SCHEDULE_MAGIC || tokens[4] != source || tokens[5] != instance then None else
    match (ReadInt(tokens[6]), ReadSize(tokens[7]), SpelledPhases(tokens))
    case (Some(duration), Some(count), Some(phases)) =>
      if count == PHASES then Some(Plan(tokens[1], tokens[2], tokens[3], duration, phases)) else None
    case _ => None
  }

  ghost predicate Accepts(tokens: seq<string>, source: string, boot: string, instance: string, initial: int64) {
    SafeToken(source) && SafeToken(instance) && Spelled(tokens, source, instance).Some? &&
    var p := Spelled(tokens, source, instance).value;
    WellFormed(p) && IsFor(p, boot, initial)
  }

  /** Which words are accepted, one by one. */
  lemma AcceptsExactly(tokens: seq<string>, source: string, boot: string, instance: string, initial: int64)
    ensures Accepts(tokens, source, boot, instance, initial) <==>
            && |tokens| == 17 && tokens[0] == "LAME_SOURCE_SCHEDULE_V1"
            && tokens[2] == boot && tokens[4] == source && tokens[5] == instance
            && (forall i :: 1 <= i < 6 ==> SafeToken(tokens[i]))
            && ReadInt(tokens[6]).Some? && ReadInt(tokens[6]).value > 0 && ReadSize(tokens[7]) == Some(3)
            && (forall i :: 0 <= i < 3 ==> IsPhaseSpelled(tokens, i, ReadInt(tokens[6]).value))
            && ReadInt(tokens[10]) == ReadInt(tokens[16]) == Some(initial)
    ensures Accepts(tokens, source, boot, instance, initial) ==>
              var p := Spelled(tokens, source, instance).value;
              && p.session == tokens[1] && p.boot == tokens[2] && p.hash == tokens[3] && Some(p.duration) == ReadInt(tokens[6])
              && forall i :: 0 <= i < 3 ==>
                   p.phases[i].id == tokens[8 + 3 * i] && Some(p.phases[i].offset) == ReadInt(tokens[9 + 3 * i]) &&
                   Some(p.phases[i].period) == ReadInt(tokens[10 + 3 * i])
  {
    AcceptsByParts(tokens, source, boot, instance, initial);
    if |tokens| == 17 {
      assert tokens[1..6] == [tokens[1], tokens[2], tokens[3], tokens[4], tokens[5]];
      if ReadInt(tokens[6]).Some? {
        PhasesSpelledOut(tokens, ReadInt(tokens[6]).value);
      }
    }
  }

  /** The words of phase `i` are two numbers and a safe name, in order with the phases before. */
  ghost predicate IsPhaseSpelled(tokens: seq<string>, i: int, duration: int64)
    requires |tokens| == 17 && 0 <= i < 3
  {
    var id, offset, period := tokens[8 + 3 * i], ReadInt(tokens[9 + 3 * i]), ReadInt(tokens[10 + 3 * i]);
    && offset.Some? && period.Some? && SafeToken(id)
    && 0 <= offset.value < duration && period.value > 0
    && (i == 0 ==> offset.value == 0)
    && forall j :: 0 <= j < i ==>
         tokens[8 + 3 * j] != id && ReadInt(tokens[9 + 3 * j]).Some? && ReadInt(tokens[9 + 3 * j]).value < offset.value
  }

  lemma PhasesSpelledOut(tokens: seq<string>, duration: int64)
    requires |tokens| == 17
    ensures (forall i :: 0 <= i < 3 ==> IsPhaseSpelled(tokens, i, duration)) <==>
            SpelledPhases(tokens).Some? && PhasesWellFormed(duration, SpelledPhases(tokens).value)
  {
    assert (forall i :: 0 <= i < 3 ==> IsPhaseSpelled(tokens, i, duration)) <==>
        IsPhaseSpelled(tokens, 0, duration) && IsPhaseSpelled(tokens, 1, duration) && IsPhaseSpelled(tokens, 2, duration);
    if SpelledPhase(tokens, 0).Some? && SpelledPhase(tokens, 1).Some? && SpelledPhase(tokens, 2).Some? {
      var a, b, c := SpelledPhase(tokens, 0).value, SpelledPhase(tokens, 1).value, SpelledPhase(tokens, 2).value;
      ThreeSpelled(tokens, duration, a, b, c);
      ThreePhases(duration, a, b, c);
    }
  }

  lemma ThreeSpelled(tokens: seq<string>, duration: int64, a: Phase, b: Phase, c: Phase)
    requires |tokens| == 17
    requires SpelledPhase(tokens, 0) == Some(a) && SpelledPhase(tokens, 1) == Some(b) && SpelledPhase(tokens, 2) == Some(c)
    ensures IsPhaseSpelled(tokens, 0, duration) <==> SafeToken(a.id) && 0 == a.offset < duration && a.period > 0
    ensures IsPhaseSpelled(tokens, 1, duration) <==>
              SafeToken(b.id) && 0 <= b.offset < duration && b.period > 0 && a.id != b.id && a.offset < b.offset
    ensures IsPhaseSpelled(tokens, 2, duration) <==>
              SafeToken(c.id) && 0 <= c.offset < duration && c.period > 0 &&
              a.id != c.id && a.offset < c.offset && b.id != c.id && b.offset < c.offset
  {
  }

  lemma ThreePhases(duration: int64, a: Phase, b: Phase, c: Phase)
    ensures PhasesWellFormed(duration, [a, b, c]) <==>
            && 0 == a.offset < b.offset < c.offset < duration
            && a.period > 0 && b.period > 0 && c.period > 0
            && SafeToken(a.id) && SafeToken(b.id) && SafeToken(c.id)
            && a.id != b.id && a.id != c.id && b.id != c.id
  {
    var ps := [a, b, c];
    if PhasesWellFormed(duration, ps) {
      assert ps[0].offset < ps[1].offset < ps[2].offset;
      assert ps[0].id != ps[1].id && ps[0].id != ps[2].id && ps[1].id != ps[2].id;
    }
  }

  method CheckToken(token: string) returns (ok: bool)
    ensures ok <==> SafeToken(token)
    ensures ok <==> token != "" && token != "." && token != ".." &&
                    forall i :: 0 <= i < |token| ==>
                      'a' <= token[i] <= 'z' || 'A' <= token[i] <= 'Z' || '0' <= token[i] <= '9' || token[i] in "-_."
  {
    if token == "" || token == "." || token == ".." {
      return false;
    }
    for i := 0 to |token|
      invariant forall j :: 0 <= j < i ==> SafeChar(token[j])
    {
      if !SafeChar(token[i]) {
        return false;
      }
    }
    return true;
  }

  /** The words before the phases are those of a schedule for this producer. */
  ghost predicate HeaderIsFor(tokens: seq<string>, source: string, boot: string, instance: string) {
    |tokens| >= 8 && tokens[0] == SCHEDULE_MAGIC && tokens[4] == source && tokens[2] == boot && tokens[5] == instance &&
    ReadInt(tokens[6]).Some? && ReadInt(tokens[6]).value > 0 && ReadSize(tokens[7]) == Some(PHASES) &&
    SafeToken(tokens[1]) && SafeToken(boot) && SafeToken(tokens[3]) && SafeToken(source) && SafeToken(instance)
  }

  lemma AcceptsByParts(tokens: seq<string>, source: string, boot: string, instance: string, initial: int64)
    ensures Accepts(tokens, source, boot, instance, initial) <==>
            HeaderIsFor(tokens, source, boot, instance) && |tokens| == 8 + 3 * PHASES && SpelledPhases(tokens).Some? &&
            var phases := SpelledPhases(tokens).value;
            PhasesWellFormed(ReadInt(tokens[6]).value, phases) && phases[0].period == initial == phases[PHASES - 1].period
  {
  }

  method CheckHeader(tokens: seq<string>, source: string, boot: string, instance: string) returns (ok: bool)
    ensures ok <==> HeaderIsFor(tokens, source, boot, instance)
  {
    if |tokens| < 8 {
      return false;
    }
    var duration, count := ReadInt(tokens[6]), ReadSize(tokens[7]);
    if duration.None? || count.None? || tokens[0] != SCHEDULE_MAGIC || tokens[4] != source || tokens[2] != boot ||
       tokens[5] != instance || duration.value <= 0 || count.value != PHASES {
      return false;
    }
    var named := [tokens[1], boot, tokens[3], source, instance];
    ok := CheckTokens(named);
    assert ok ==> SafeToken(named[0]) && SafeToken(named[1]) && SafeToken(named[2]) && SafeToken(named[3]) && SafeToken(named[4]);
  }

  /** The validating constructor, on the words of the file: a plan, or the exception. */
  method ReadPlan(tokens: seq<string>, source: string, boot: string, instance: string, initial: int64)
    returns (r: Option<Plan>)
    ensures r == if Accepts(tokens, source, boot, instance, initial) then Spelled(tokens, source, instance) else None
  {
    AcceptsByParts(tokens, source, boot, instance, initial);
    var ok := CheckHeader(tokens, source, boot, instance);
    if !ok {
      return None;
    }
    var duration := ReadInt(tokens[6]).value;
    var phases := ReadPhases(tokens, duration);
    if phases.None? || |tokens| > 8 + 3 * PHASES || phases.value[0].period != initial ||
       phases.value[0].period != phases.value[PHASES - 1].period {
      return None;
    }
    return Some(Plan(tokens[1], boot, tokens[3], duration, phases.value));
  }

  method CheckTokens(tokens: seq<string>) returns (ok: bool)
    ensures ok <==> forall i :: 0 <= i < |tokens| ==> SafeToken(tokens[i])
  {
    for i := 0 to |tokens|
      invariant forall j :: 0 <= j < i ==> SafeToken(tokens[j])
    {
      var safe := CheckToken(tokens[i]);
      if !safe {
        return false;
      }
    }
    return true;
  }

  /** The loop over the phases. */
  method ReadPhases(tokens: seq<string>, duration: int64) returns (r: Option<seq<Phase>>)
    ensures r.Some? ==> r == SpelledPhases(tokens) && PhasesWellFormed(duration, r.value)
    ensures r.None? && SpelledPhases(tokens).Some? ==> !PhasesWellFormed(duration, SpelledPhases(tokens).value)
  {
    var phases: seq<Phase> := [];
    for i := 0 to PHASES
      invariant |phases| == i && PhasesWellFormed(duration, phases) && SpellPrefix(tokens, phases)
    {
      var read := SpelledPhase(tokens, i);
      if read.None? {
        return None;
      }
      var ok := CheckPhase(duration, phases, read.value);
      SpellOneMore(tokens, phases, read.value);
      phases := phases + [read.value];
      if !ok {
        BadPrefix(tokens, duration, phases);
        return None;
      }
    }
    SpelledPrefix(tokens, phases);
    return Some(phases);
  }

  ghost predicate SpellPrefix(tokens: seq<string>, phases: seq<Phase>) {
    forall j :: 0 <= j < |phases| ==> SpelledPhase(tokens, j) == Some(phases[j])
  }

  lemma SpellOneMore(tokens: seq<string>, phases: seq<Phase>, phase: Phase)
    requires SpellPrefix(tokens, phases) && SpelledPhase(tokens, |phases|) == Some(phase)
    ensures SpellPrefix(tokens, phases + [phase])
  {
  }

  lemma SpelledPrefix(tokens: seq<string>, phases: seq<Phase>)
    requires |phases| <= PHASES && SpellPrefix(tokens, phases)
    ensures SpelledPhases(tokens).Some? ==> |SpelledPhases(tokens).value| == PHASES && phases == SpelledPhases(tokens).value[..|phases|]
    ensures |phases| == PHASES ==> SpelledPhases(tokens) == Some(phases)
  {
    if |phases| == PHASES {
      assert phases == [phases[0], phases[1], phases[2]];
    }
  }

  lemma BadPrefix(tokens: seq<string>, duration: int64, phases: seq<Phase>)
    requires |phases| <= PHASES && SpellPrefix(tokens, phases) && !PhasesWellFormed(duration, phases)
    ensures SpelledPhases(tokens).Some? ==> !PhasesWellFormed(duration, SpelledPhases(tokens).value)
  {
    SpelledPrefix(tokens, phases);
    PrefixWellFormed(duration, SpelledPhases(tokens), |phases|);
  }

  lemma PrefixWellFormed(duration: int64, phases: Option<seq<Phase>>, n: nat)
    requires phases.Some? ==> n <= |phases.value|
    ensures phases.Some? && PhasesWellFormed(duration, phases.value) ==> PhasesWellFormed(duration, phases.value[..n])
  {
  }

  /** The conditions on one phase, checked against the ones before it. */
  method CheckPhase(duration: int64, phases: seq<Phase>, phase: Phase) returns (ok: bool)
    requires PhasesWellFormed(duration, phases)
    ensures ok <==> PhasesWellFormed(duration, phases + [phase])
  {
    var n, all := |phases|, phases + [phase];
    assert all[n] == phase;
    assert forall j :: 0 <= j < n ==> all[j] == phases[j];
    if phase.period <= 0 || phase.offset < 0 || phase.offset >= duration ||
       (if n == 0 then phase.offset != 0 else phase.offset <= phases[n - 1].offset) {
      return false;
    }
    for j := 0 to n
      invariant forall k :: 0 <= k < j ==> phases[k].id != phase.id
    {
      if phases[j].id == phase.id {
        return false;
      }
    }
    ok := CheckToken(phase.id);
  }

  // ---------- The start record and the due phases ----------

  /** The epoch that a start record gives, if it is valid for the plan. */
  function StartEpoch(p: Plan, tokens: seq<string>): (e: Option<int64>)
    ensures e.Some? ==> 0 < e.value && e.value + p.duration <= INT64_MAX
  {
    if |tokens| != 5 || tokens[..4] != [START_MAGIC, p.session, p.boot, p.hash] then None else
    match ReadInt(tokens[4])
    case Some(epoch) => if epoch <= 0 || epoch > INT64_MAX - p.duration then None else Some(epoch)
    case None => None
  }

  function Requested(p: Plan, epoch: int, i: nat): int
    requires i < |p.phases|
  {
    epoch + p.phases[i].offset
  }

  /** The requested time is the epoch plus the offset, and fits 64 bits. */
  lemma RequestedFits(p: Plan, tokens: seq<string>, i: nat)
    requires WellFormed(p) && StartEpoch(p, tokens).Some? && i < |p.phases|
    ensures 0 < StartEpoch(p, tokens).value + p.phases[i].offset <= INT64_MAX
    ensures Requested(p, StartEpoch(p, tokens).value, i) == StartEpoch(p, tokens).value + p.phases[i].offset
  {
  }

  /** Which start records are accepted, word by word. */
  lemma StartEpochExactly(p: Plan, tokens: seq<string>, epoch: int64)
    ensures StartEpoch(p, tokens) == Some(epoch) <==>
            && |tokens| == 5 && tokens[0] == "LAME_SOURCE_START_V1"
            && tokens[1] == p.session && tokens[2] == p.boot && tokens[3] == p.hash
            && ReadInt(tokens[4]) == Some(epoch) && 0 < epoch && epoch + p.duration <= INT64_MAX
  {
    if |tokens| == 5 {
      assert tokens[..4] == [tokens[0], tokens[1], tokens[2], tokens[3]];
    }
  }

  /** The phases from `next` on whose time has come. */
  ghost predicate IsDue(p: Plan, epoch: int, next: nat, now: int, due: seq<nat>) {
    (due == [] || next + |due| <= |p.phases|) &&
    (forall j :: 0 <= j < |due| ==> due[j] == next + j) &&
    (forall i :: next <= i < |p.phases| ==> (i < next + |due| <==> epoch + p.phases[i].offset <= now))
  }

  /** A phase from `next` on is due exactly when the epoch plus its offset has come. */
  lemma DueHolds(p: Plan, epoch: int, next: nat, now: int, due: seq<nat>)
    requires IsDue(p, epoch, next, now, due)
    ensures forall i: nat :: next <= i < |p.phases| ==> (i in due <==> epoch + p.phases[i].offset <= now)
  {
    forall i: nat | next <= i < |p.phases| ensures i in due <==> epoch + p.phases[i].offset <= now {
      if i < next + |due| {
        assert due[i - next] == i;
      }
    }
  }

  class SourceSchedule {
    const plan: Plan
    var epoch: int64
    var next: uint64

    ghost predicate Valid()
      reads this
    {
      WellFormed(plan) && 0 <= epoch && epoch + plan.duration <= INT64_MAX
    }

    constructor (plan: Plan)
      requires WellFormed(plan)
      ensures Valid() && this.plan == plan && epoch == 0 && next == 0
    {
      this.plan, epoch, next := plan, 0, 0;
    }

    /** `start` is the start file, if there is one; no result is the exception. */
    method Due(now: int64, start: Option<seq<string>>) returns (due: Option<seq<nat>>)
      requires Valid()
      modifies `epoch
      ensures Valid()
      ensures old(epoch) != 0 ==> epoch == old(epoch)
      ensures old(epoch) == 0 && start.Some? && StartEpoch(plan, start.value).Some? ==> epoch == StartEpoch(plan, start.value).value
      ensures old(epoch) == 0 && (start.None? || StartEpoch(plan, start.value).None?) ==> epoch == 0
      ensures due.None? <==> old(epoch) == 0 && start.Some? && StartEpoch(plan, start.value).None?
      ensures due.Some? && epoch == 0 ==> due.value == []
      ensures due.Some? && epoch != 0 ==> IsDue(plan, epoch, next, now, due.value)
    {
      if epoch == 0 {
        if start.None? {
          return Some([]);
        }
        var e := StartEpoch(plan, start.value);
        if e.None? {
          return None;
        }
        epoch := e.value;
      }
      var result: seq<nat> := [];
      var i := next;
      while i < |plan.phases| && now >= Requested(plan, epoch, i)
        invariant next <= i && (i == next || i <= |plan.phases|) && |result| == i - next
        invariant forall j :: 0 <= j < |result| ==> result[j] == next + j
        invariant forall j :: next <= j < i ==> epoch + plan.phases[j].offset <= now
      {
        result := result + [i];
        i := i + 1;
      }
      return Some(result);
    }

    /** Any index moves the cursor behind it, even one that names no phase. */
    method Applied(index: uint64)
      requires Valid()
      modifies `next
      ensures Valid() && next == Incremented(index)
    {
      next := Incremented(index);
    }
  }
}
