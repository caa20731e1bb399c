/**
 `rateControl` in event mode: after counting events the caller sleeps until the time that
 many events should have taken at the configured rate.
 */
module RateControl {
  import opened Arithmetic
  import opened Timespec

  /**
   The clock and the ways to let it run. A sleep lasts at least what was asked for and at
   most `oversleep` longer; a yield takes some time, at most `yieldStep`.
   */
  class Clock {
    var now: nat
    const oversleep: nat
    const yieldStep: nat

    constructor (now: nat, oversleep: nat, yieldStep: nat)
      requires yieldStep > 0
      ensures this.now == now && this.oversleep == oversleep && this.yieldStep == yieldStep
    {
      this.now, this.oversleep, this.yieldStep := now, oversleep, yieldStep;
    }

    function Read(): (t: Timespec)
      reads this
      ensures Normal(t) && Nanos(t) == now
    {
      NanosOfNanos(now);
      OfNanos(now)
    }

    method Sleep(microseconds: nat)
      modifies this
      ensures old(now) + microseconds * 1000 <= now <= old(now) + microseconds * 1000 + oversleep
    {
      var extra: nat :| extra <= oversleep;
      now := now + microseconds * 1000 + extra;
    }

    method Yield()
      requires yieldStep > 0
      modifies this
      ensures old(now) < now <= old(now) + yieldStep
    {
      var d: nat :| 0 < d <= yieldStep;
      now := now + d;
    }
  }

  /** The nanoseconds that `events` should take. The pace per event is rounded down. */
  function Target(rate: nat, events: nat): nat
    requires rate > 0
  {
    (1_000_000_000 / rate) * events
  }

  /** A sleep that was asked for: at which elapsed time, and for how many microseconds. */
  datatype Nap = Nap(elapsed: nat, microseconds: nat)

  class RateController {
    var eventsCount: nat
    var clockPrev: Timespec
    var eventsPerSecond: nat  // 0 means no limit

    ghost predicate Valid(clock: Clock)
      reads this, clock
    {
      Normal(clockPrev) && Nanos(clockPrev) <= clock.now && clock.yieldStep > 0
    }

    ghost function Elapsed(clock: Clock): nat
      reads this, clock
      requires Valid(clock)
    {
      clock.now - Nanos(clockPrev)
    }

    constructor (rate: nat, clock: Clock)
      requires clock.yieldStep > 0
      ensures Valid(clock) && eventsCount == 0 && eventsPerSecond == rate && Elapsed(clock) == 0
    {
      eventsPerSecond, eventsCount, clockPrev := rate, 0, clock.Read();
    }

    /**
     Returns no earlier than the target. It does not wait at all if the target has passed;
     otherwise it is late by less than one yield or by at most one oversleep. Every sleep that
     it asks for reaches up to the last whole microsecond before the target, and not past it.
     */
    method IncrementAndWait(clock: Clock, howMany: nat) returns (naps: seq<Nap>)
      requires Valid(clock)
      modifies `eventsCount, clock
      ensures Valid(clock) && eventsCount == old(eventsCount) + howMany
      ensures eventsPerSecond == 0 ==> clock.now == old(clock.now) && naps == []
      ensures eventsPerSecond > 0 ==>
        var target := Target(eventsPerSecond, eventsCount);
        && (if old(Elapsed(clock)) >= target then clock.now == old(clock.now) && naps == []
            else target <= Elapsed(clock) <= target + Max(clock.oversleep, clock.yieldStep - 1))
        && forall n | n in naps ::
            n.microseconds > 0 && target - 1000 < n.elapsed + n.microseconds * 1000 <= target
    {
      naps := [];
      eventsCount := eventsCount + howMany;
      if eventsPerSecond == 0 {
        return;
      }
      hide Minus;
      var target := (NANOSECOND / eventsPerSecond) * eventsCount;
      assert target == Target(eventsPerSecond, eventsCount);
      var clockNow := clock.Read();
      MinusIsDifference(clockNow, clockPrev);
      while target > Minus(clockNow, clockPrev)
        modifies clock
        invariant Valid(clock) && Normal(clockNow) && Nanos(clockNow) == clock.now
        invariant Minus(clockNow, clockPrev) == Elapsed(clock)
        invariant || (clock.now == old(clock.now) && naps == [])
                  || old(Elapsed(clock)) < target
        invariant || clock.now == old(clock.now)
                  || Elapsed(clock) <= target + Max(clock.oversleep, clock.yieldStep - 1)
        invariant forall n | n in naps ::
            n.microseconds > 0 && target - 1000 < n.elapsed + n.microseconds * 1000 <= target
        decreases target - Elapsed(clock)
      {
        var uSecDiff := (target - Minus(clockNow, clockPrev)) / 1000;
        if uSecDiff != 0 {
          naps := naps + [Nap(Minus(clockNow, clockPrev), uSecDiff)];
          clock.Sleep(uSecDiff);
        } else {
          clock.Yield();
        }
        clockNow := clock.Read();
        MinusIsDifference(clockNow, clockPrev);
      }
    }
  }

  /**
   The target is what the rate asks for, rounded down per event: never longer, and shorter by
   less than a nanosecond for each event.
   */
  lemma TargetIsRounded(rate: nat, events: nat)
    requires rate > 0
    ensures Target(rate, events) * rate <= events * 1_000_000_000
    ensures events > 0 ==> events * 1_000_000_000 < (Target(rate, events) + events) * rate
  {
    var pace, rest := 1_000_000_000 / rate, 1_000_000_000 % rate;
    Regroup(pace, rate, events);
    assert rate * pace + rest == 1_000_000_000;
    MulMono(events, pace * rate, 1_000_000_000);
    if events > 0 { StrictlyBelow(events, 1_000_000_000, pace * rate + rate); }
  }

  lemma Regroup(pace: nat, rate: nat, events: nat)
    ensures (pace * events) * rate == events * (pace * rate)
    ensures (pace * events + events) * rate == events * (pace * rate + rate)
  {
    assert (pace * events) * rate == events * (pace * rate);
    assert (pace * events + events) * rate == (pace * events) * rate + events * rate;
    assert events * (pace * rate + rate) == events * (pace * rate) + events * rate;
  }

  lemma StrictlyBelow(n: nat, a: nat, b: nat)
    requires n > 0 && a < b
    ensures n * a < n * b
  {
    MulMono(n, a + 1, b);
    assert n * (a + 1) == n * a + n;
  }

  // ---- What the pace means for the rate ------------------------------------

  /** No more events in the elapsed time than the rate allows. */
  ghost predicate WithinRate(rate: nat, events: nat, elapsed: nat) {
    events * 1_000_000_000 <= elapsed * rate
  }

  /**
   Keeping to the target keeps to the configured rate (so many events per 10^9 nanoseconds)
   exactly when the rate divides 10^9; otherwise the pace was rounded and a caller can get
   ahead of the rate.
   */
  lemma PaceKeepsRateIff(rate: nat)
    requires rate > 0
    ensures (forall events: nat, elapsed: nat | Target(rate, events) <= elapsed :: WithinRate(rate, events, elapsed))
       <==> 1_000_000_000 % rate == 0
  {
    var pace := 1_000_000_000 / rate;
    if 1_000_000_000 % rate == 0 {
      forall events: nat, elapsed: nat | Target(rate, events) <= elapsed
        ensures WithinRate(rate, events, elapsed)
      {
        ExactPace(rate, pace, events, elapsed);
      }
    } else {
      assert Target(rate, 1) <= pace && !WithinRate(rate, 1, pace);
    }
  }

  lemma ExactPace(rate: nat, pace: nat, events: nat, elapsed: nat)
    requires pace * rate == 1_000_000_000 && pace * events <= elapsed
    ensures events * 1_000_000_000 <= elapsed * rate
  {
    assert events * (pace * rate) == (pace * events) * rate;
    MulMono(rate, pace * events, elapsed);
  }
}
