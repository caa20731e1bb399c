/** Clock readings and their difference, as testharness.cpp computes it. */
module Timespec {
  const NANOSECOND := 1_000_000_000

  /** `struct timespec`; the nanoseconds are below one second. */
  datatype Timespec = Timespec(sec: nat, nsec: nat)

  predicate Normal(t: Timespec) { t.nsec < 1_000_000_000 }

  function Nanos(t: Timespec): nat { t.sec * 1_000_000_000 + t.nsec }

  function OfNanos(n: nat): Timespec { Timespec(n / 1_000_000_000, n % 1_000_000_000) }

  /** `operator -`: the difference in nanoseconds, or 0 if `left` is the earlier one. */
  function Minus(left: Timespec, right: Timespec): nat
    requires Normal(left) && Normal(right)
  {
    if left.sec < right.sec || (left.sec == right.sec && left.nsec < right.nsec) then 0
    else (left.sec - right.sec) * 1_000_000_000 + left.nsec - right.nsec
  }

  /** The borrow between seconds and nanoseconds comes out right. */
  lemma MinusIsDifference(left: Timespec, right: Timespec)
    requires Normal(left) && Normal(right)
    ensures Minus(left, right) == if Nanos(left) <= Nanos(right) then 0 else Nanos(left) - Nanos(right)
    ensures Nanos(left) - Nanos(right) == (left.sec - right.sec) * 1_000_000_000 + left.nsec - right.nsec
  {
  }

  lemma NanosOfNanos(n: nat)
    ensures Normal(OfNanos(n)) && Nanos(OfNanos(n)) == n
  {
  }
}
