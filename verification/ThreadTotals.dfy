/**
 Aggregation over the worker threads of the test harness: event rates are added per second,
 timings are weighted by the events of their second, and `main` divides one by the other.
 */
module ThreadTotals {
  import opened Arithmetic
  import opened Permutations

  /** What one worker reports: events per second, and average read and write times per second. */
  datatype Worker = Worker(rate: seq<nat>, read: seq<nat>, write: seq<nat>)

  datatype Timer = Read | Write

  function Timing(w: Worker, which: Timer): seq<nat> { if which.Read? then w.read else w.write }

  // ---- The reference: sums over workers ------------------------------------

  function Longest(ws: seq<Worker>): nat {
    if ws == [] then 0 else Max(Longest(ws[1..]), |ws[0].rate|)
  }

  function SumRate(ws: seq<Worker>, i: nat): nat {
    if ws == [] then 0 else SumRate(ws[1..], i) + At(ws[0].rate, i)
  }

  /** A worker counts only in the seconds it has both a rate and a timing for. */
  function LongestTimer(ws: seq<Worker>, which: Timer): nat {
    if ws == [] then 0
    else Max(LongestTimer(ws[1..], which), Min(|ws[0].rate|, |Timing(ws[0], which)|))
  }

  function SumTime(ws: seq<Worker>, which: Timer, i: nat): nat {
    if ws == [] then 0
    else SumTime(ws[1..], which, i) + At(ws[0].rate, i) * At(Timing(ws[0], which), i)
  }

  function Average(ws: seq<Worker>, which: Timer, i: nat): nat {
    if SumRate(ws, i) > 0 then SumTime(ws, which, i) / SumRate(ws, i) else 0
  }

  ghost predicate IsTotal(total: seq<nat>, ws: seq<Worker>) {
    |total| == Longest(ws) && forall i | 0 <= i < |total| :: total[i] == SumRate(ws, i)
  }

  ghost predicate IsTimer(timer: seq<nat>, ws: seq<Worker>, which: Timer) {
    |timer| == LongestTimer(ws, which) && forall i | 0 <= i < |timer| :: timer[i] == SumTime(ws, which, i)
  }

  // ---- The shared vectors --------------------------------------------------

  class Totals {
    var rate: seq<nat>
    var read: seq<nat>
    var write: seq<nat>
    ghost var workers: seq<Worker>  // those that have reported, the last one first

    ghost predicate Valid()
      reads this
    {
      IsTotal(rate, workers) && IsTimer(read, workers, Read) && IsTimer(write, workers, Write)
    }

    constructor ()
      ensures Valid() && workers == []
    {
      rate, read, write, workers := [], [], [], [];
    }

    /** What a worker does under the console mutex when it is done. */
    method Report(w: Worker)
      requires Valid()
      modifies this
      ensures Valid() && workers == [w] + old(workers)
    {
      assert ([w] + workers)[1..] == workers;
      rate := AddRate(rate, w, workers);
      read := AddTimer(read, w, Read, workers);
      write := AddTimer(write, w, Write, workers);
      workers := [w] + workers;
    }

    /** What `main` does when all workers have been joined. */
    method Finish()
      requires Valid()
      modifies this
      ensures rate == old(rate) && workers == old(workers) && IsTotal(rate, workers)
      ensures |read| == LongestTimer(workers, Read) && |write| == LongestTimer(workers, Write)
      ensures forall i | 0 <= i < |read| :: read[i] == Average(workers, Read, i)
      ensures forall i | 0 <= i < |write| :: write[i] == Average(workers, Write, i)
    {
      read := Divide(read, rate, workers, Read);
      write := Divide(write, rate, workers, Write);
    }
  }

  method AddRate(total: seq<nat>, w: Worker, ghost ws: seq<Worker>) returns (sum: seq<nat>)
    requires IsTotal(total, ws)
    ensures IsTotal(sum, [w] + ws)
  {
    assert ([w] + ws)[1..] == ws;
    sum := total;
    for i := 0 to |w.rate|
      invariant |sum| == Max(|total|, i)
      invariant forall k | 0 <= k < |sum| :: sum[k] == At(total, k) + if k < i then w.rate[k] else 0
    {
      if i < |sum| {
        sum := sum[i := sum[i] + w.rate[i]];
      } else {
        sum := sum + [w.rate[i]];
      }
    }
    forall k | 0 <= k < |sum|
      ensures sum[k] == SumRate([w] + ws, k)
    {
      if k >= |total| { NoRateBeyond(ws, k); }
    }
  }

  method AddTimer(timer: seq<nat>, w: Worker, which: Timer, ghost ws: seq<Worker>) returns (sum: seq<nat>)
    requires IsTimer(timer, ws, which)
    ensures IsTimer(sum, [w] + ws, which)
  {
    assert ([w] + ws)[1..] == ws;
    sum := timer;
    var ns := Timing(w, which);
    for i := 0 to |ns|
      invariant |sum| == Max(|timer|, Min(i, |w.rate|))
      invariant forall k | 0 <= k < |sum| ::
                  sum[k] == At(timer, k) + if k < i && k < |w.rate| then w.rate[k] * ns[k] else 0
    {
      if i < |w.rate| {
        if i < |sum| {
          sum := sum[i := sum[i] + w.rate[i] * ns[i]];
        } else {
          sum := sum + [w.rate[i] * ns[i]];
        }
      }
    }
    forall k | 0 <= k < |sum|
      ensures sum[k] == SumTime([w] + ws, which, k)
    {
      if k >= |timer| { NoTimeBeyond(ws, which, k); }
    }
  }

  /** The timer cannot be longer than the rate, which the source relies on without a check. */
  method Divide(timer: seq<nat>, rate: seq<nat>, ghost ws: seq<Worker>, which: Timer) returns (avg: seq<nat>)
    requires IsTotal(rate, ws) && IsTimer(timer, ws, which)
    ensures |avg| == |timer| && forall i | 0 <= i < |avg| :: avg[i] == Average(ws, which, i)
  {
    TimerNotLonger(ws, which);
    avg := timer;
    for i := 0 to |timer|
      invariant |avg| == |timer|
      invariant forall k | 0 <= k < |avg| :: avg[k] == if k < i then Average(ws, which, k) else timer[k]
    {
      avg := avg[i := if rate[i] > 0 then avg[i] / rate[i] else 0];
    }
  }

  lemma {:induction false} NoRateBeyond(ws: seq<Worker>, i: nat)
    requires i >= Longest(ws)
    ensures SumRate(ws, i) == 0
  {
    if ws != [] { NoRateBeyond(ws[1..], i); }
  }

  lemma {:induction false} NoTimeBeyond(ws: seq<Worker>, which: Timer, i: nat)
    requires i >= LongestTimer(ws, which)
    ensures SumTime(ws, which, i) == 0
  {
    if ws != [] { NoTimeBeyond(ws[1..], which, i); }
  }

  lemma {:induction false} TimerNotLonger(ws: seq<Worker>, which: Timer)
    ensures LongestTimer(ws, which) <= Longest(ws)
  {
    if ws != [] { TimerNotLonger(ws[1..], which); }
  }

  // ---- The order of completion does not matter -----------------------------

  lemma {:induction false} TakeOut(ws: seq<Worker>, k: nat, i: nat, which: Timer)
    requires k < |ws|
    ensures SumRate(ws, i) == SumRate(Drop(ws, k), i) + At(ws[k].rate, i)
    ensures SumTime(ws, which, i) == SumTime(Drop(ws, k), which, i) + At(ws[k].rate, i) * At(Timing(ws[k], which), i)
    ensures Longest(ws) == Max(Longest(Drop(ws, k)), |ws[k].rate|)
    ensures LongestTimer(ws, which)
         == Max(LongestTimer(Drop(ws, k), which), Min(|ws[k].rate|, |Timing(ws[k], which)|))
  {
    hide At, Timing;
    if k == 0 {
      assert Drop(ws, k) == ws[1..];
    } else {
      TakeOut(ws[1..], k - 1, i, which);
      assert Drop(ws, k)[0] == ws[0] && Drop(ws, k)[1..] == Drop(ws[1..], k - 1);
    }
  }

  lemma {:induction false} CompletionOrderIsIrrelevant(ws: seq<Worker>, ws': seq<Worker>, i: nat, which: Timer)
    requires multiset(ws) == multiset(ws')
    ensures SumRate(ws, i) == SumRate(ws', i) && SumTime(ws, which, i) == SumTime(ws', which, i)
    ensures Longest(ws) == Longest(ws') && LongestTimer(ws, which) == LongestTimer(ws', which)
    decreases |ws|
  {
    if ws == [] {
      EmptyPermutation(ws');
    } else {
      var k := FindHead(ws, ws');
      CompletionOrderIsIrrelevant(ws[1..], Drop(ws', k), i, which);
      TakeOut(ws', k, i, which);
    }
  }

  // ---- What the averages mean ----------------------------------------------

  lemma {:induction false} TimeAtMost(ws: seq<Worker>, which: Timer, i: nat, most: nat)
    requires forall w | w in ws && At(w.rate, i) > 0 && i < |Timing(w, which)| :: Timing(w, which)[i] <= most
    ensures SumTime(ws, which, i) <= most * SumRate(ws, i)
  {
    if ws != [] {
      TimeAtMost(ws[1..], which, i, most);
      assert ws[0] in ws;
      WeightAtMost(At(ws[0].rate, i), At(Timing(ws[0], which), i), most, SumRate(ws[1..], i));
    }
  }

  lemma WeightAtMost(rate: nat, time: nat, most: nat, others: nat)
    requires rate > 0 ==> time <= most
    ensures rate * time + most * others <= most * (others + rate)
  {
    if rate > 0 { assert rate * time <= rate * most; }
  }

  lemma {:induction false} TimeAtLeast(ws: seq<Worker>, which: Timer, i: nat, least: nat)
    requires forall w | w in ws && At(w.rate, i) > 0 :: i < |Timing(w, which)| && least <= Timing(w, which)[i]
    ensures SumTime(ws, which, i) >= least * SumRate(ws, i)
  {
    if ws != [] {
      TimeAtLeast(ws[1..], which, i, least);
      assert ws[0] in ws;
      WeightAtLeast(At(ws[0].rate, i), At(Timing(ws[0], which), i), least, SumRate(ws[1..], i));
    }
  }

  lemma WeightAtLeast(rate: nat, time: nat, least: nat, others: nat)
    requires rate > 0 ==> time >= least
    ensures rate * time + least * others >= least * (others + rate)
  {
    if rate > 0 { assert rate * time >= rate * least; }
  }

  /**
   A final average is at most the largest timing that contributed to it. It is at least the
   smallest one if every worker with events in that second also had a timing for it.
   */
  lemma {:induction false} AverageIsBetween(ws: seq<Worker>, which: Timer, i: nat, least: nat, most: nat)
    requires SumRate(ws, i) > 0
    requires forall w | w in ws && At(w.rate, i) > 0 && i < |Timing(w, which)| :: least <= Timing(w, which)[i] <= most
    ensures Average(ws, which, i) <= most
    ensures (forall w | w in ws && At(w.rate, i) > 0 :: i < |Timing(w, which)|) ==> least <= Average(ws, which, i)
  {
    TimeAtMost(ws, which, i, most);
    QuotientAtMost(SumTime(ws, which, i), SumRate(ws, i), most);
    if forall w | w in ws && At(w.rate, i) > 0 :: i < |Timing(w, which)| {
      TimeAtLeast(ws, which, i, least);
      QuotientAtLeast(SumTime(ws, which, i), SumRate(ws, i), least);
    }
  }

  /** An average is the weighted total over the rate, rounded down, and 0 where there were no events. */
  lemma AverageIsFloor(ws: seq<Worker>, which: Timer, i: nat)
    ensures if SumRate(ws, i) == 0 then Average(ws, which, i) == 0
            else var a := Average(ws, which, i);
              a * SumRate(ws, i) <= SumTime(ws, which, i) < (a + 1) * SumRate(ws, i)
  {
    var n, d := SumTime(ws, which, i), SumRate(ws, i);
    if d > 0 {
      assert n == d * (n / d) + n % d;
      assert (n / d + 1) * d == d * (n / d) + d;
    }
  }

  /** A total is as long as the longest rate, a timer as its longest part with a rate to it. */
  lemma {:induction false} LengthsAre(ws: seq<Worker>, which: Timer)
    requires ws != []
    ensures forall w | w in ws ::
              |w.rate| <= Longest(ws) && Min(|w.rate|, |Timing(w, which)|) <= LongestTimer(ws, which)
    ensures exists w | w in ws :: |w.rate| == Longest(ws)
    ensures exists w | w in ws :: Min(|w.rate|, |Timing(w, which)|) == LongestTimer(ws, which)
  {
    hide Timing;
    assert ws[0] in ws;
    if |ws| > 1 {
      LengthsAre(ws[1..], which);
      assert forall w | w in ws[1..] :: w in ws;
      assert forall w | w in ws :: w == ws[0] || w in ws[1..];
    } else {
      assert ws[1..] == [];
    }
  }

  /** Two workers in one second: rates are added, timings are weighted by the rate of their own worker. */
  lemma TwoWorkers(v: Worker, w: Worker, which: Timer)
    requires |v.rate| == |v.read| == |v.write| == |w.rate| == |w.read| == |w.write| == 1
    ensures SumRate([v, w], 0) == v.rate[0] + w.rate[0]
    ensures SumTime([v, w], Read, 0) == v.rate[0] * v.read[0] + w.rate[0] * w.read[0]
    ensures SumTime([v, w], Write, 0) == v.rate[0] * v.write[0] + w.rate[0] * w.write[0]
    ensures Longest([v, w]) == 1 && LongestTimer([v, w], which) == 1
  {
    var none: seq<Worker> := [];
    assert [v, w][1..] == [w] && [w][1..] == none;
    assert SumRate([w], 0) == SumRate(none, 0) + w.rate[0];
    assert SumTime([w], Read, 0) == SumTime(none, Read, 0) + w.rate[0] * w.read[0];
    assert SumTime([w], Write, 0) == SumTime(none, Write, 0) + w.rate[0] * w.write[0];
    assert Longest([w]) == Max(Longest(none), 1) && LongestTimer([w], which) == Max(LongestTimer(none, which), 1);
  }
}
