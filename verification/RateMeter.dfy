/**
 `rateMonitor`: counts events per second of elapsed time. The entries and the open count are
 compared with the log of all events since the last start.
 */
module RateMeter {
  import opened Arithmetic
  import opened Timespec

  /** An event batch: the clock reading when it was counted, and how many events it held. */
  datatype Event = Event(at: nat, count: nat)

  // ---- The reference: which second an event belongs to ---------------------

  /** Second k runs from k to k + 1, the upper end included; instant zero is in the first. */
  function Second(elapsed: int): nat {
    if elapsed <= 0 then 0 else (elapsed - 1) / 1_000_000_000
  }

  /** The second that is open after a log; a clock that goes backwards does not reopen one. */
  function Slot(start: nat, log: seq<Event>): nat {
    if log == [] then 0
    else Max(Slot(start, log[..|log| - 1]), Second(log[|log| - 1].at - start))
  }

  /** The events that were counted while second `k` was open. */
  function CountIn(start: nat, log: seq<Event>, k: nat): nat {
    if log == [] then 0
    else CountIn(start, log[..|log| - 1], k) + if Slot(start, log) == k then log[|log| - 1].count else 0
  }

  /** The events that fall in second `k` by their own time. */
  function EventsOf(start: nat, log: seq<Event>, k: nat): nat {
    if log == [] then 0
    else
      var e := log[|log| - 1];
      EventsOf(start, log[..|log| - 1], k) + if Second(e.at - start) == k then e.count else 0
  }

  function Total(log: seq<Event>): nat {
    if log == [] then 0 else Total(log[..|log| - 1]) + log[|log| - 1].count
  }

  ghost predicate NonDecreasing(log: seq<Event>) {
    forall i, j | 0 <= i < j < |log| :: log[i].at <= log[j].at
  }

  lemma {:induction false} LastIsLatest(start: nat, log: seq<Event>)
    requires NonDecreasing(log) && log != []
    ensures Slot(start, log) == Second(log[|log| - 1].at - start)
  {
    var n := |log| - 1;
    if n > 0 {
      LastIsLatest(start, log[..n]);
      SecondMonotone(log[n - 1].at - start, log[n].at - start);
    }
  }

  lemma SecondOf(x: int, n: nat)
    ensures Second(x) <= n <==> x <= (n + 1) * 1_000_000_000
  {
  }

  lemma SecondMonotone(x: int, y: int)
    requires x <= y
    ensures Second(x) <= Second(y)
  {
  }

  /** With a clock that does not go backwards, every event is counted in its own second. */
  lemma {:induction false} CountedInOwnSecond(start: nat, log: seq<Event>, k: nat)
    requires NonDecreasing(log)
    ensures CountIn(start, log, k) == EventsOf(start, log, k)
  {
    if log != [] {
      LastIsLatest(start, log);
      CountedInOwnSecond(start, log[..|log| - 1], k);
    }
  }

  lemma {:induction false} NothingBeyondSlot(start: nat, log: seq<Event>, k: nat)
    requires k > Slot(start, log)
    ensures CountIn(start, log, k) == 0
  {
    if log != [] {
      NothingBeyondSlot(start, log[..|log| - 1], k);
    }
  }

  /** The counts of the first `n` seconds. */
  function SumCounts(start: nat, log: seq<Event>, n: nat): nat {
    if n == 0 then 0 else SumCounts(start, log, n - 1) + CountIn(start, log, n - 1)
  }

  /** No event is lost or counted twice, whatever the clock does. */
  lemma {:induction false} AllAreCounted(start: nat, log: seq<Event>, n: nat)
    requires n > Slot(start, log)
    ensures SumCounts(start, log, n) == Total(log)
  {
    if log == [] {
      NoCounts(start, n);
    } else {
      AllAreCounted(start, log[..|log| - 1], n);
      OneMoreCount(start, log, n);
    }
  }

  lemma {:induction false} NoCounts(start: nat, n: nat)
    ensures SumCounts(start, [], n) == 0
  {
    if n > 0 { NoCounts(start, n - 1); }
  }

  lemma {:induction false} OneMoreCount(start: nat, log: seq<Event>, n: nat)
    requires log != []
    ensures SumCounts(start, log, n)
         == SumCounts(start, log[..|log| - 1], n) + if Slot(start, log) < n then log[|log| - 1].count else 0
  {
    if n > 0 { OneMoreCount(start, log, n - 1); }
  }

  function Sum(entries: seq<nat>): nat {
    if entries == [] then 0 else Sum(entries[..|entries| - 1]) + entries[|entries| - 1]
  }

  /** The closed entries and the open count add up to all events. */
  lemma {:induction false} EntriesAddUp(start: nat, log: seq<Event>, entries: seq<nat>)
    requires |entries| == Slot(start, log)
    requires forall k | 0 <= k < |entries| :: entries[k] == CountIn(start, log, k)
    ensures Sum(entries) + CountIn(start, log, |entries|) == Total(log)
  {
    SumOfEntries(start, log, entries);
    AllAreCounted(start, log, |entries| + 1);
  }

  lemma {:induction false} SumOfEntries(start: nat, log: seq<Event>, entries: seq<nat>)
    requires forall k | 0 <= k < |entries| :: entries[k] == CountIn(start, log, k)
    ensures Sum(entries) == SumCounts(start, log, |entries|)
  {
    if entries != [] { SumOfEntries(start, log, entries[..|entries| - 1]); }
  }

  lemma {:induction false} LogGrows(start: nat, log: seq<Event>, e: Event)
    ensures var log' := log + [e]; var slot := Max(Slot(start, log), Second(e.at - start));
      && Slot(start, log') == slot
      && forall k :: CountIn(start, log', k) == CountIn(start, log, k) + if k == slot then e.count else 0
  {
    assert (log + [e])[..|log|] == log;
  }

  // ---- The class -----------------------------------------------------------

  class RateMonitor {
    var clockPrev: Timespec  // no clock is set when its seconds are zero
    var eventsPerSecond: seq<nat>
    var eventsCount: nat

    ghost var start: nat       // when the clock was started
    ghost var base: nat        // the entries there were then
    ghost var log: seq<Event>  // the events since

    /** Entries and open count agree with the log. */
    ghost predicate Valid()
      reads this
    {
      && Normal(clockPrev)
      && base <= |eventsPerSecond|
      && |eventsPerSecond| - base == Slot(start, log)
      && Nanos(clockPrev) == start + Slot(start, log) * 1_000_000_000
      && (forall k | 0 <= k < Slot(start, log) :: eventsPerSecond[base + k] == CountIn(start, log, k))
      && eventsCount == CountIn(start, log, Slot(start, log))
    }

    constructor (now: Timespec)
      requires Normal(now) && now.sec > 0
      ensures Valid() && clockPrev.sec > 0 && log == [] && start == Nanos(now) && eventsPerSecond == []
    {
      eventsPerSecond := [];
      new;
      Start(now);
    }

    method Start(now: Timespec)
      requires Normal(now) && now.sec > 0
      modifies this
      ensures Valid() && clockPrev.sec > 0 && log == [] && start == Nanos(now) && base == |eventsPerSecond|
      ensures eventsPerSecond == old(eventsPerSecond)
    {
      clockPrev := now;
      eventsCount := 0;
      start, base, log := Nanos(now), |eventsPerSecond|, [];
    }

    /** One entry per full second that has passed since the open second began. */
    method CloseSeconds(now: Timespec)
      requires Valid() && Normal(now)
      modifies `clockPrev, `eventsPerSecond, `eventsCount
      ensures var closed := Max(Slot(start, log), Second(Nanos(now) - start));
        && Normal(clockPrev) && clockPrev.sec >= old(clockPrev.sec)
        && |eventsPerSecond| - base == closed && base <= |eventsPerSecond|
        && eventsPerSecond[..base] == old(eventsPerSecond[..base])
        && Nanos(clockPrev) == start + closed * 1_000_000_000
        && (forall k | 0 <= k < closed :: eventsPerSecond[base + k] == CountIn(start, log, k))
        && eventsCount == CountIn(start, log, closed)
      ensures Minus(now, clockPrev) <= NANOSECOND
    {
      hide Second, Minus, Slot, CountIn;
      ghost var n := Slot(start, log);
      MinusIsDifference(now, clockPrev);
      SecondOf(Nanos(now) - start, n);
      while Minus(now, clockPrev) > NANOSECOND
        invariant Normal(clockPrev) && clockPrev.sec >= old(clockPrev.sec)
        invariant Slot(start, log) <= n <= Max(Slot(start, log), Second(Nanos(now) - start))
        invariant |eventsPerSecond| == base + n && eventsPerSecond[..base] == old(eventsPerSecond[..base])
        invariant Nanos(clockPrev) == start + n * 1_000_000_000
        invariant Minus(now, clockPrev) == if Nanos(now) <= Nanos(clockPrev) then 0 else Nanos(now) - Nanos(clockPrev)
        invariant Second(Nanos(now) - start) <= n <==> Nanos(now) - start <= (n + 1) * 1_000_000_000
        invariant forall k | 0 <= k < n :: eventsPerSecond[base + k] == CountIn(start, log, k)
        invariant eventsCount == CountIn(start, log, n)
        decreases Minus(now, clockPrev)
      {
        eventsPerSecond := eventsPerSecond + [eventsCount];
        eventsCount := 0;
        clockPrev := clockPrev.(sec := clockPrev.sec + 1);
        n := n + 1;
        NothingBeyondSlot(start, log, n);
        MinusIsDifference(now, clockPrev);
        SecondOf(Nanos(now) - start, n);
      }
    }

    /** `restart` is the reading that restarts the clock if none is running. */
    method Increment(restart: Timespec, now: Timespec, howMany: nat := 1)
      requires Valid() && Normal(restart) && restart.sec > 0 && Normal(now)
      modifies this
      ensures Valid() && clockPrev.sec > 0
      ensures if old(clockPrev.sec) == 0
              then log == [Event(Nanos(now), howMany)] && start == Nanos(restart) && base == |old(eventsPerSecond)|
              else log == old(log) + [Event(Nanos(now), howMany)] && start == old(start) && base == old(base)
      ensures base <= |old(eventsPerSecond)| && eventsPerSecond[..base] == old(eventsPerSecond)[..base]
    {
      hide Second, Minus, Slot, CountIn, Max;
      if clockPrev.sec == 0 {
        Start(restart);
      }
      CloseSeconds(now);
      eventsCount := eventsCount + howMany;
      LogGrows(start, log, Event(Nanos(now), howMany));
      log := log + [Event(Nanos(now), howMany)];
    }

    /**
     Closes the full seconds and adds at most one entry for the rest: only if no second was
     closed, more than 5% of one has passed and there are open events. That entry is the
     open count scaled up to a full second, by a factor below 20.
     */
    method TallyUp(now: Timespec)
      requires Valid() && Normal(now)
      modifies `clockPrev, `eventsPerSecond, `eventsCount
      ensures Normal(clockPrev)
      ensures Tallied(old(eventsPerSecond), eventsPerSecond, start, base, log, Nanos(now) - start)
    {
      CloseSeconds(now);
      hide Second, Minus, Slot, CountIn, Scaled;
      MinusIsDifference(now, clockPrev);
      ghost var closed := |eventsPerSecond| - base;
      if closed > Slot(start, log) { NothingBeyondSlot(start, log, closed); }
      var rest := Minus(now, clockPrev);
      if eventsCount > 0 && rest > NANOSECOND / 20 {
        ScaledUp(eventsCount, rest);
        eventsPerSecond := eventsPerSecond + [Scaled(eventsCount, rest)];
      }
    }

    /** There is no check that the clock is running: stopping twice adds a zero for every second of the calendar. */
    method Stop(now: Timespec)
      requires Valid() && Normal(now)
      modifies this
      ensures Valid() && clockPrev.sec == 0 && log == [] && start < 1_000_000_000 && base == |eventsPerSecond|
      ensures var elapsed, slot := Nanos(now) - old(start), |old(eventsPerSecond)| - old(base);
        var closed := Max(slot, Second(elapsed));
        var rest, open := elapsed - closed * 1_000_000_000, old(eventsCount);
        && old(base) + closed <= |eventsPerSecond| && eventsPerSecond[..old(base)] == old(eventsPerSecond)[..old(base)]
        && (forall k | 0 <= k < closed :: eventsPerSecond[old(base) + k] == CountIn(old(start), old(log), k))
        && if closed == slot && rest > 50_000_000 && open > 0 then
          && |eventsPerSecond| == old(base) + closed + 1
          && eventsPerSecond[old(base) + closed] == open * 1_000_000_000 / rest
        else
          |eventsPerSecond| == old(base) + closed
    {
      hide Tallied, Slot, CountIn, Second, Max;
      ghost var before, elapsed := eventsPerSecond, Nanos(now) - start;
      TallyUp(now);
      TalliedMeans(before, eventsPerSecond, start, base, log, elapsed);
      Halt();
    }

    /** Nothing counted and no clock running, the entries kept. */
    method Halt()
      requires Normal(clockPrev)
      modifies `eventsCount, `clockPrev, `start, `base, `log
      ensures Valid() && clockPrev.sec == 0 && log == [] && start < 1_000_000_000 && base == |eventsPerSecond|
    {
      eventsCount := 0;
      clockPrev := clockPrev.(sec := 0);
      start, base, log := Nanos(clockPrev), |eventsPerSecond|, [];
    }
  }

  /** What stopping leaves of a log, `elapsed` after its start; entries from earlier starts are kept. */
  ghost predicate Tallied(before: seq<nat>, entries: seq<nat>, start: nat, base: nat, log: seq<Event>, elapsed: int) {
    var slot := Slot(start, log);
    var closed := Max(slot, Second(elapsed));
    var rest := elapsed - closed * 1_000_000_000;
    var open := CountIn(start, log, slot);
    var partial := closed == slot && rest > 50_000_000 && open > 0;
    && base <= |before| && |entries| == base + closed + (if partial then 1 else 0)
    && entries[..base] == before[..base]
    && (forall k | 0 <= k < closed :: entries[base + k] == CountIn(start, log, k))
    && (partial ==> open <= entries[base + closed] < 20 * open && entries[base + closed] == Scaled(open, rest))
  }

  /** The entry for an open second, in terms of its count and its length. */
  lemma TalliedMeans(before: seq<nat>, entries: seq<nat>, start: nat, base: nat, log: seq<Event>, elapsed: int)
    requires Tallied(before, entries, start, base, log, elapsed)
    ensures var slot := Slot(start, log);
      var closed := Max(slot, Second(elapsed));
      var rest, open := elapsed - closed * 1_000_000_000, CountIn(start, log, slot);
      && base + closed <= |entries| && base <= |before| && entries[..base] == before[..base]
      && (forall k | 0 <= k < closed :: entries[base + k] == CountIn(start, log, k))
      && if closed == slot && rest > 50_000_000 && open > 0 then
        && |entries| == base + closed + 1 && entries[base + closed] == open * 1_000_000_000 / rest
      else
        |entries| == base + closed
  {
    var slot := Slot(start, log);
    hide Slot, CountIn, Second;
  }

  /** The entry for part of a second is the count of a full one at the same pace, rounded down. */
  lemma ScaledIsFloor(count: nat, rest: nat)
    requires rest > 0
    ensures Scaled(count, rest) * rest <= count * 1_000_000_000 < (Scaled(count, rest) + 1) * rest
  {
    var n := count * 1_000_000_000;
    assert n == rest * (n / rest) + n % rest;
    assert (n / rest + 1) * rest == rest * (n / rest) + rest;
  }

  /** A meter whose clock is not running, stopped again: one zero for every second up to now. */
  lemma StoppedAgain(before: seq<nat>, entries: seq<nat>, start: nat, elapsed: int)
    requires Tallied(before, entries, start, |before|, [], elapsed)
    ensures entries == before + seq(Second(elapsed), k => 0)
  {
    forall j | |before| <= j < |entries|
      ensures entries[j] == 0
    {
      assert CountIn(start, [], j - |before|) == 0;
    }
  }

  /** What a count in part of a second is in a full one. */
  function Scaled(count: nat, rest: nat): nat
    requires rest > 0
  {
    count * NANOSECOND / rest
  }

  lemma ScaledUp(count: nat, rest: nat)
    requires 50_000_000 < rest <= 1_000_000_000 && count > 0
    ensures count <= Scaled(count, rest) < 20 * count
  {
    MulMono(count, rest, 1_000_000_000);
    QuotientAtLeast(count * 1_000_000_000, rest, count);
    MulMono(20 * count, 50_000_001, rest);
    QuotientBelow(count * 1_000_000_000, rest, 20 * count);
  }
}
