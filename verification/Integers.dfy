/** The fixed-width integers of the C++ sources, as ranges of int. */
module Integers {
  const INT32_MIN: int := -0x8000_0000
  const INT32_MAX: int := 0x7fff_ffff
  const UINT32_MAX: int := 0xffff_ffff
  const INT64_MIN: int := -0x8000_0000_0000_0000
  const INT64_MAX: int := 0x7fff_ffff_ffff_ffff
  const UINT64_MAX: int := 0xffff_ffff_ffff_ffff

  type int32 = x: int | INT32_MIN <= x <= INT32_MAX
  type uint32 = x: int | 0 <= x <= UINT32_MAX
  type int64 = x: int | INT64_MIN <= x <= INT64_MAX
  type uint64 = x: int | 0 <= x <= UINT64_MAX

  /** Unsigned 64-bit arithmetic wraps around. */
  function WrapUint64(n: nat): uint64 {
    n % (UINT64_MAX + 1)
  }

  function Incremented(n: uint64): uint64 {
    if n == UINT64_MAX then 0 else n + 1
  }

  lemma WrapSuccessor(n: nat)
    ensures Incremented(WrapUint64(n)) == WrapUint64(n + 1)
  {
  }

  /** A counter that starts at zero, after `n` increments. */
  function CounterAfter(n: nat): uint64 {
    if n == 0 then 0 else Incremented(CounterAfter(n - 1))
  }

  lemma {:induction false} CounterWraps(n: nat)
    ensures CounterAfter(n) == WrapUint64(n)
  {
    if n > 0 {
      CounterWraps(n - 1);
      WrapSuccessor(n - 1);
    }
  }

  lemma CounterIsExact(n: nat)
    ensures n <= UINT64_MAX ==> CounterAfter(n) == n
  {
    CounterWraps(n);
  }
}
