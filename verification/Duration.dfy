/** `rclcpp::Duration`: conversions to and from messages and rmw times, sums and differences. */
module Durations {
  import opened Integers
  import opened Options

  const NS: int := 1_000_000_000

  /** `builtin_interfaces::msg::Duration` */
  datatype Message = Message(sec: int32, nanosec: uint32)

  /** `std::div`, which truncates towards zero. */
  function Quotient(d: int): int {
    if d >= 0 then d / NS else -(-d / NS)
  }

  function Remainder(d: int): int {
    d - Quotient(d) * NS
  }

  /** The narrowing cast to 32 bits. */
  function CastInt32(x: int): int32 {
    (x - INT32_MIN) % (UINT32_MAX + 1) + INT32_MIN
  }

  function ToMessage(d: int64): Message {
    var quot, rem := Quotient(d), Remainder(d);
    if rem >= 0 then
      if quot > INT32_MAX then Message(INT32_MAX, UINT32_MAX) else Message(CastInt32(quot), rem)
    else
      if quot <= INT32_MIN then Message(INT32_MIN, 0) else Message(CastInt32(quot - 1), NS + rem)
  }

  function FromMessage(m: Message): int64 {
    m.sec * NS + m.nanosec
  }

  function RoundTrip(d: int64): int64 {
    FromMessage(ToMessage(d))
  }

  const LOWEST: int := INT32_MIN * NS
  const SATURATED: int := INT32_MAX * NS + UINT32_MAX

  /** Whole seconds below the 32-bit range that the cast turns into other seconds. */
  predicate Misplaced(d: int64) {
    Remainder(d) == 0 && Quotient(d) < INT32_MIN && Quotient(d) != INT32_MIN - (UINT32_MAX + 1)
  }

  /** The first misplaced duration below the range. */
  lemma SomeAreMisplaced()
    ensures Misplaced((INT32_MIN - 1) * NS)
    ensures RoundTrip((INT32_MIN - 1) * NS) == INT32_MAX * NS
  {
  }

  function Clamped(d: int): int {
    if d < LOWEST then LOWEST else if d >= (INT32_MAX + 1) * NS then SATURATED else d
  }

  lemma CastFacts(x: int)
    ensures INT32_MIN <= x <= INT32_MAX ==> CastInt32(x) == x
    ensures INT32_MIN - (UINT32_MAX + 1) <= x < INT32_MIN ==> CastInt32(x) == x + (UINT32_MAX + 1)
    ensures INT32_MIN - 2 * (UINT32_MAX + 1) <= x < INT32_MIN - (UINT32_MAX + 1) ==> CastInt32(x) == x + 2 * (UINT32_MAX + 1)
  {
  }

  /** The message in terms of floor seconds, for every duration. */
  lemma ToMessageExactly(d: int64)
    ensures d / NS > INT32_MAX ==> ToMessage(d) == Message(INT32_MAX, UINT32_MAX)
    ensures INT32_MIN <= d / NS <= INT32_MAX ==> ToMessage(d) == Message(d / NS, d % NS)
    ensures d / NS < INT32_MIN && d % NS != 0 ==> ToMessage(d) == Message(INT32_MIN, 0)
    ensures d / NS < INT32_MIN && d % NS == 0 ==>
              ToMessage(d).nanosec == 0 && (ToMessage(d).sec - d / NS) % 0x1_0000_0000 == 0
    ensures Misplaced(d) <==> d / NS < INT32_MIN && d % NS == 0 && d / NS != INT32_MIN - 0x1_0000_0000
  {
    CastFacts(Quotient(d));
    CastFacts(Quotient(d) - 1);
  }

  /** A message with proper nanoseconds comes back as itself, and further nanoseconds count one each. */
  lemma MessageReadsBack(m: Message)
    ensures FromMessage(m) - FromMessage(m.(nanosec := 0)) == m.nanosec
    ensures m.nanosec < NS ==> ToMessage(FromMessage(m)) == m
  {
    ToMessageExactly(FromMessage(m));
  }

  /** A message holds the clamped duration exactly unless the duration is misplaced, and then a later one. */
  lemma RoundTripClamps(d: int64)
    ensures RoundTrip(d) == Clamped(d) <==> !Misplaced(d)
    ensures Misplaced(d) ==> RoundTrip(d) > Clamped(d) == LOWEST
  {
    CastFacts(Quotient(d));
    CastFacts(Quotient(d) - 1);
  }

  /** Converting there and back is the identity exactly on 32-bit seconds, and at the saturation value. */
  lemma RoundTripIsIdentity(d: int64)
    ensures RoundTrip(d) == d <==> INT32_MIN <= d / NS <= INT32_MAX || d == SATURATED
    ensures INT32_MIN <= d / NS <= INT32_MAX ==> ToMessage(d) == Message(d / NS, d % NS)
  {
    RoundTripClamps(d);
  }

  lemma KeepsOrder(d: int64, e: int64)
    requires d <= e && !Misplaced(d)
    ensures RoundTrip(d) <= RoundTrip(e)
  {
    RoundTripClamps(d);
    RoundTripClamps(e);
  }

  /** The neighbour of a misplaced duration is converted to an earlier one. */
  lemma NeighbourIsEarlier(d: int64)
    requires Misplaced(d)
    ensures d < INT64_MAX && RoundTrip(d + 1) < RoundTrip(d)
  {
    RoundTripClamps(d);
    RoundTripClamps(d + 1);
  }

  /** A duration keeps its place before all later ones exactly when it is not misplaced. */
  lemma RoundTripKeepsOrder(d: int64)
    ensures (forall e: int64 :: d <= e ==> RoundTrip(d) <= RoundTrip(e)) <==> !Misplaced(d)
  {
    if Misplaced(d) {
      NeighbourIsEarlier(d);
    } else {
      forall e: int64 | d <= e ensures RoundTrip(d) <= RoundTrip(e) {
        KeepsOrder(d, e);
      }
    }
  }

  // ---------- rmw times ----------

  datatype RmwTime = RmwTime(sec: uint64, nsec: uint64)

  /** No result is the exception for a negative duration. */
  function ToRmwTime(d: int64): Option<RmwTime> {
    if d < 0 then None else Some(RmwTime(Quotient(d), Remainder(d)))
  }

  function FromRmwTime(t: RmwTime): int64 {
    if t.sec > INT64_MAX / NS || t.nsec > INT64_MAX then INT64_MAX else
    var total := WrapUint64(WrapUint64(t.sec * NS) + t.nsec);
    if total > INT64_MAX then INT64_MAX else total
  }

  /** Saturating conversion, with no wrap on the way. */
  lemma FromRmwTimeSaturates(t: RmwTime)
    ensures FromRmwTime(t) == if t.sec * NS + t.nsec <= INT64_MAX then t.sec * NS + t.nsec else INT64_MAX
    ensures t.sec <= INT64_MAX / NS && t.nsec <= INT64_MAX ==> t.sec * NS + t.nsec <= UINT64_MAX
  {
  }

  /** Whole seconds and what is left of a second, and back again; a negative duration is refused. */
  lemma RmwTimeRoundTrip(d: int64)
    ensures ToRmwTime(d).None? <==> d < 0
    ensures d >= 0 ==>
              var t := ToRmwTime(d).value;
              t.nsec < 1_000_000_000 && t.sec * 1_000_000_000 + t.nsec == d && FromRmwTime(t) == d
  {
    if d >= 0 {
      FromRmwTimeSaturates(ToRmwTime(d).value);
    }
  }

  // ---------- Sums and differences ----------

  /** `Undefined` is a signed overflow that no check caught. */
  datatype Outcome = Exact(ns: int64) | Overflow | Underflow | Undefined

  /** `static_cast<uint64_t>(std::abs(x))` on two's complement. */
  function Magnitude(x: int64): uint64 {
    if x < 0 then -(x as int) else x
  }

  function Result(x: int): Outcome {
    if INT64_MIN <= x <= INT64_MAX then Exact(x) else Undefined
  }

  function Sum(l: int64, r: int64): Outcome {
    var total := WrapUint64(Magnitude(l) + Magnitude(r));
    if l > 0 && r > 0 && total > INT64_MAX then Overflow
    else if l < 0 && r < 0 && total > INT64_MAX then Underflow
    else Result(l + r)
  }

  function Difference(l: int64, r: int64): Outcome {
    var total := WrapUint64(Magnitude(l) + Magnitude(r));
    if l > 0 && r < 0 && total > INT64_MAX then Overflow
    else if l < 0 && r > 0 && total > INT64_MAX then Underflow
    else Result(l - r)
  }

  /**
   Sums throw exactly when the true sum is outside the symmetric range, but for these: the
   minimum with itself slips through as undefined behaviour, and the minimum plus zero is
   returned.
   */
  lemma SumIsChecked(l: int64, r: int64)
    ensures Sum(l, r) == Overflow <==> l + r > INT64_MAX
    ensures Sum(l, r) == Undefined <==> l == r == INT64_MIN
    ensures Sum(l, r) == Underflow <==> l + r < -INT64_MAX && !(l == r == INT64_MIN) && l != 0 && r != 0
    ensures forall x: int64 :: Sum(l, r) == Exact(x) <==> x == l + r && (-INT64_MAX <= x <= INT64_MAX || (x == INT64_MIN && (l == 0 || r == 0)))
  {
  }

  /**
   Differences throw exactly when the true difference is outside the symmetric range, but
   for these: zero minus the minimum slips through as undefined behaviour, and the minimum
   minus zero is returned.
   */
  lemma DifferenceIsChecked(l: int64, r: int64)
    ensures Difference(l, r) == Overflow <==> l - r > INT64_MAX && l != 0
    ensures Difference(l, r) == Undefined <==> l == 0 && r == INT64_MIN
    ensures Difference(l, r) == Underflow <==> l - r < -INT64_MAX && r != 0
    ensures forall x: int64 :: Difference(l, r) == Exact(x) <==> x == l - r && (-INT64_MAX <= x <= INT64_MAX || (x == INT64_MIN && r == 0))
  {
  }

  /**
   Adding back an exact difference gives the duration again, unless the duration is the
   minimum and the other is negative but not the minimum: that sum is refused.
   */
  lemma SumUndoesDifference(l: int64, r: int64)
    requires Difference(l, r).Exact?
    ensures Sum(Difference(l, r).ns, r) == Exact(l) <==> !(l == INT64_MIN && INT64_MIN < r < 0)
    ensures l == INT64_MIN && INT64_MIN < r < 0 ==> Sum(Difference(l, r).ns, r) == Underflow
  {
  }
}
