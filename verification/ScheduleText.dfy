/** Schedule files and start records as they are written, which the schedule reads back. */
module ScheduleText {
  import opened Integers
  import opened Options
  import opened SourceSchedules
  import Json

  function Printed(x: int): string {
    if x < 0 then "-" + Json.Decimal(-x) else Json.Decimal(x)
  }

  lemma {:induction false} DigitsValueReadsDecimal(n: nat)
    ensures DigitsValue(Json.Decimal(n)) == Some(n)
    ensures Json.Decimal(n) != "" && Json.IsDigit(Json.Decimal(n)[0])
  {
    var d := Json.Digit(n % 10);
    if n < 10 {
      assert Json.Decimal(n)[..0] == "";
    } else {
      DigitsValueReadsDecimal(n / 10);
      Json.DecimalSplits(n / 10, [d]);
      assert [d] + "" == [d];
      assert Json.Decimal(n) == Json.Decimal(n / 10) + [d];
    }
  }

  lemma PrintedMagnitude(x: int)
    ensures Magnitude(Printed(x)) == Some(if x < 0 then -x else x)
    ensures Negative(Printed(x)) <==> x < 0
  {
    DigitsValueReadsDecimal(if x < 0 then -x else x);
    if x < 0 {
      assert Printed(x)[1..] == Json.Decimal(-x);
    }
  }

  /** Every 64-bit number reads back; a printed number outside 64 bits is refused. */
  lemma PrintedReadsBack(x: int)
    ensures ReadInt(Printed(x)) == if INT64_MIN <= x <= INT64_MAX then Some(x) else None
  {
    PrintedMagnitude(x);
  }

  /** A size reads back modulo 2^64, and is refused if its magnitude does not fit 64 bits. */
  lemma PrintedSizeReadsBack(x: int)
    ensures ReadSize(Printed(x)) ==
            if -UINT64_MAX <= x < 0 then Some(UINT64_MAX + 1 + x)
            else if 0 <= x <= UINT64_MAX then Some(x)
            else None
  {
    PrintedMagnitude(x);
  }

  // ---------- Any number that is read ----------

  lemma {:induction false} DigitsReadFromLeft(s: string, c: char, n: nat)
    ensures var r := Json.ReadDigits(s, n);
            Json.ReadDigits(s + [c], n) ==
            if r.rest == "" && Json.IsDigit(c) then Json.Got(10 * r.value + Json.DigitValue(c), "")
            else Json.Got(r.value, r.rest + [c])
  {
    if s != "" && Json.IsDigit(s[0]) {
      DigitsReadFromLeft(s[1..], c, 10 * n + Json.DigitValue(s[0]));
      assert (s + [c])[1..] == s[1..] + [c];
    } else if s == "" {
      assert s + [c] == [c] && [c][1..] == "";
    } else {
      assert Json.ReadDigits(s, n).rest == s;
    }
  }

  /** Digits are worth what they are worth read from the left, leading zeros included; anything else is no number. */
  lemma {:induction false} DigitsValueIsLeftToRight(s: string)
    ensures DigitsValue(s) == if Json.ReadDigits(s, 0).rest == "" then Some(Json.ReadDigits(s, 0).value) else None
  {
    if s != "" {
      var front, c := s[..|s| - 1], s[|s| - 1];
      DigitsValueIsLeftToRight(front);
      DigitsReadFromLeft(front, c, 0);
      assert s == front + [c];
    }
  }

  /** What the digits of a word, read from the left, are worth; the word may begin with a sign. */
  ghost predicate IsWritten(token: string, negative: bool, n: nat) {
    token != "" &&
    var digits := if token[0] == '-' || token[0] == '+' then token[1..] else token;
    digits != "" && Json.ReadDigits(digits, 0) == Json.Got(n, "") && (negative <==> token[0] == '-')
  }

  /** Which words are read as a signed number: a sign or none, then digits that are worth it. */
  lemma ReadIntExactly(token: string, x: int64)
    ensures ReadInt(token) == Some(x) <==> exists n: nat, negative :: IsWritten(token, negative, n) && x == if negative then -(n as int) else n
  {
    if token != "" {
      var digits := if token[0] == '-' || token[0] == '+' then token[1..] else token;
      DigitsValueIsLeftToRight(digits);
      if digits != "" && Json.ReadDigits(digits, 0).rest == "" {
        assert IsWritten(token, token[0] == '-', Json.ReadDigits(digits, 0).value);
      }
    }
  }

  /** Which words are read as a size: a negative number stands for that number modulo 2^64. */
  lemma ReadSizeExactly(token: string, x: uint64)
    ensures ReadSize(token) == Some(x) <==>
            exists n: nat, negative :: IsWritten(token, negative, n) && n <= UINT64_MAX &&
              x == if negative && n > 0 then UINT64_MAX + 1 - n else n
  {
    if token != "" {
      var digits := if token[0] == '-' || token[0] == '+' then token[1..] else token;
      DigitsValueIsLeftToRight(digits);
      if digits != "" && Json.ReadDigits(digits, 0).rest == "" {
        assert IsWritten(token, token[0] == '-', Json.ReadDigits(digits, 0).value);
      }
    }
  }

  function PhaseWords(phase: Phase): seq<string> {
    [phase.id, Printed(phase.offset), Printed(phase.period)]
  }

  function Words(p: Plan, source: string, instance: string): seq<string>
    requires |p.phases| == PHASES
  {
    [SCHEDULE_MAGIC, p.session, p.boot, p.hash, source, instance, Printed(p.duration), Printed(PHASES)] +
    PhaseWords(p.phases[0]) + PhaseWords(p.phases[1]) + PhaseWords(p.phases[2])
  }

  lemma PhaseWordsReadBack(words: seq<string>, i: nat, phase: Phase)
    requires |words| >= 11 + 3 * i && words[8 + 3 * i..11 + 3 * i] == PhaseWords(phase)
    ensures SpelledPhase(words, i) == Some(phase)
  {
    PrintedReadsBack(phase.offset);
    PrintedReadsBack(phase.period);
    var w := words[8 + 3 * i..11 + 3 * i];
    assert w[0] == words[8 + 3 * i] && w[1] == words[9 + 3 * i] && w[2] == words[10 + 3 * i];
  }

  /** A written plan reads as itself. */
  lemma WrittenPlanReadsBack(p: Plan, source: string, instance: string)
    requires |p.phases| == PHASES
    ensures Spelled(Words(p, source, instance), source, instance) == Some(p)
  {
    var words := Words(p, source, instance);
    PrintedReadsBack(p.duration);
    PrintedSizeReadsBack(PHASES);
    PhaseWordsReadBack(words, 0, p.phases[0]);
    PhaseWordsReadBack(words, 1, p.phases[1]);
    PhaseWordsReadBack(words, 2, p.phases[2]);
    assert p.phases == [p.phases[0], p.phases[1], p.phases[2]];
  }

  /** A written plan is accepted if and only if it is well formed and for this producer. */
  lemma WrittenPlanIsAccepted(p: Plan, source: string, boot: string, instance: string, initial: int64)
    requires |p.phases| == PHASES
    ensures Accepts(Words(p, source, instance), source, boot, instance, initial) <==>
            WellFormed(p) && IsFor(p, boot, initial) && SafeToken(source) && SafeToken(instance)
  {
    WrittenPlanReadsBack(p, source, instance);
  }

  function StartWords(p: Plan, epoch: int): seq<string> {
    [START_MAGIC, p.session, p.boot, p.hash, Printed(epoch)]
  }

  /** A start record starts exactly the plans with its identity, and only from an epoch they can run from. */
  lemma StartRecordReadsBack(p: Plan, written: Plan, epoch: int)
    ensures StartEpoch(p, StartWords(written, epoch)) ==
            if (written.session, written.boot, written.hash) == (p.session, p.boot, p.hash) &&
               0 < epoch <= INT64_MAX && epoch + p.duration <= INT64_MAX
            then Some(epoch) else None
  {
    PrintedReadsBack(epoch);
    var identity := StartWords(written, epoch)[..4];
    assert identity == [START_MAGIC, written.session, written.boot, written.hash];
    assert [identity[1], identity[2], identity[3]] == [written.session, written.boot, written.hash];
  }
}
