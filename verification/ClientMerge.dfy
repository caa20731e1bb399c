/**
 The merge in aggregateResults.pl: the reports of several clients are added up second by
 second, over as many seconds as every client has.
 */
module ClientMerge {
  import opened Arithmetic
  import opened Permutations

  /** A client's report and the second of the day it was started. */
  datatype Server = Server(timestamp: nat, rate: seq<nat>, read: seq<nat>, write: seq<nat>)

  datatype Column = Rate | Read | Write

  function Values(s: Server, c: Column): seq<nat> {
    match c case Rate => s.rate case Read => s.read case Write => s.write
  }

  /**
   How many seconds of a server are used: its later start is taken off the length. (The
   entries are still used from the first one on.)
   */
  function Window(s: Server, startTime: nat): int { |s.rate| - (startTime - s.timestamp) }

  // ---- The loop as a fold --------------------------------------------------

  /** One server's turn, for one of the three arrays. */
  function Add(agg: seq<nat>, s: Server, startTime: nat, c: Column): seq<nat> {
    var len := Window(s, startTime);
    if len <= 0 then []
    else
      var n := if agg == [] then len else Min(len, |agg|);
      seq(n, i requires 0 <= i => At(agg, i) + At(Values(s, c), i))
  }

  function Merged(servers: seq<Server>, startTime: nat, c: Column): seq<nat> {
    if servers == [] then []
    else Add(Merged(servers[..|servers| - 1], startTime, c), servers[|servers| - 1], startTime, c)
  }

  // ---- The program ---------------------------------------------------------

  /** `$#array = len - 1`, when the array is longer than that. */
  function Truncate(a: seq<nat>, len: int): seq<nat> {
    if len <= 0 then [] else if len < |a| then a[..len] else a
  }

  function AddedUpTo(agg: seq<nat>, values: seq<nat>, len: int): seq<nat> {
    if len <= 0 then agg else seq(len, i requires 0 <= i => At(agg, i) + At(values, i))
  }

  /** Truncating and adding, in the two steps of the program, is one server's turn. */
  lemma TurnIsAdd(agg: seq<nat>, s: Server, startTime: nat, c: Column)
    ensures var len := Window(s, startTime);
      var kept := if len < |agg| then Truncate(agg, len) else agg;
      AddedUpTo(kept, Values(s, c), if 0 < |kept| < len then |kept| else len) == Add(agg, s, startTime, c)
  {
  }

  method AddUpTo(agg: seq<nat>, values: seq<nat>, len: int) returns (sum: seq<nat>)
    requires |agg| <= len || len <= 0
    ensures sum == AddedUpTo(agg, values, len)
  {
    sum := agg;
    var i := 0;
    while i < len
      invariant 0 <= i && (len > 0 ==> i <= len) && (len <= 0 ==> sum == agg)
      invariant len > 0 ==> |sum| == if i < |agg| then |agg| else i
      invariant forall k | 0 <= k < |sum| :: sum[k] == At(agg, k) + if k < i then At(values, k) else 0
    {
      if i < |sum| {
        sum := sum[i := sum[i] + At(values, i)];
      } else {
        sum := sum + [At(values, i)];
      }
      i := i + 1;
    }
  }

  lemma MergedStep(servers: seq<Server>, k: nat, startTime: nat)
    requires k < |servers|
    ensures forall c :: Merged(servers[..k + 1], startTime, c)
                     == Add(Merged(servers[..k], startTime, c), servers[k], startTime, c)
  {
    assert servers[..k + 1][..k] == servers[..k];
  }

  lemma SameLength(rate: seq<nat>, read: seq<nat>, write: seq<nat>, s: Server, startTime: nat)
    requires |rate| == |read| == |write|
    ensures |Add(rate, s, startTime, Rate)| == |Add(read, s, startTime, Read)| == |Add(write, s, startTime, Write)|
  {
  }

  /** The merge itself, for a given order in which the servers come out of the hash. */
  method Merge(servers: seq<Server>, startTime: nat) returns (rate: seq<nat>, read: seq<nat>, write: seq<nat>)
    ensures rate == Merged(servers, startTime, Rate)
    ensures |read| == |Merged(servers, startTime, Read)| == |rate|
    ensures |write| == |Merged(servers, startTime, Write)| == |rate|
    ensures forall i | 0 <= i < |read| :: read[i] == Merged(servers, startTime, Read)[i] / |servers|
    ensures forall i | 0 <= i < |write| :: write[i] == Merged(servers, startTime, Write)[i] / |servers|
  {
    rate, read, write := [], [], [];
    for k := 0 to |servers|
      invariant rate == Merged(servers[..k], startTime, Rate)
      invariant read == Merged(servers[..k], startTime, Read)
      invariant write == Merged(servers[..k], startTime, Write)
      invariant |rate| == |read| == |write|
    {
      hide Merged, Add, AddedUpTo, Window;
      var s := servers[k];
      MergedStep(servers, k, startTime);
      TurnIsAdd(rate, s, startTime, Rate);
      TurnIsAdd(read, s, startTime, Read);
      TurnIsAdd(write, s, startTime, Write);
      SameLength(rate, read, write, s, startTime);
      var len := Window(s, startTime);
      if len < |rate| {
        rate, read, write := Truncate(rate, len), Truncate(read, len), Truncate(write, len);
      }
      if 0 < |rate| < len {
        len := |rate|;
      }
      rate := AddUpTo(rate, s.rate, len);
      read := AddUpTo(read, s.read, len);
      write := AddUpTo(write, s.write, len);
    }
    assert servers[..|servers|] == servers;
    read := DivideAll(read, |servers|);
    write := DivideAll(write, |servers|);
  }

  method DivideAll(a: seq<nat>, n: nat) returns (q: seq<nat>)
    requires a != [] ==> n > 0
    ensures |q| == |a| && forall i | 0 <= i < |a| :: q[i] == a[i] / n
  {
    q := a;
    for i := 0 to |a|
      invariant |q| == |a| && forall k | 0 <= k < |a| :: q[k] == if k < i then a[k] / n else a[k]
    {
      q := q[i := q[i] / n];
    }
  }

  // ---- What it is meant to compute -----------------------------------------

  function Shortest(servers: seq<Server>, startTime: nat): int
    requires servers != []
  {
    var w := Window(servers[|servers| - 1], startTime);
    if |servers| == 1 then w else Min(Shortest(servers[..|servers| - 1], startTime), w)
  }

  function Sum(servers: seq<Server>, c: Column, i: nat): nat {
    if servers == [] then 0
    else Sum(servers[..|servers| - 1], c, i) + At(Values(servers[|servers| - 1], c), i)
  }

  ghost predicate AllPositive(servers: seq<Server>, startTime: nat) {
    forall s | s in servers :: Window(s, startTime) > 0
  }

  /** All servers' entries added up, over the shortest window; nothing if a window is empty. */
  ghost predicate IsFullMerge(agg: seq<nat>, servers: seq<Server>, startTime: nat, c: Column) {
    if servers == [] || !AllPositive(servers, startTime) then agg == []
    else
      && |agg| == Shortest(servers, startTime)
      && forall i | 0 <= i < |agg| :: agg[i] == Sum(servers, c, i)
  }

  /** If every window is positive, the merge is complete. */
  lemma {:induction false} PositiveWindowsMerge(servers: seq<Server>, startTime: nat, c: Column)
    requires servers != [] && AllPositive(servers, startTime)
    ensures var m := Merged(servers, startTime, c);
      |m| == Shortest(servers, startTime) > 0 && forall i | 0 <= i < |m| :: m[i] == Sum(servers, c, i)
  {
    var n := |servers| - 1;
    assert servers[n] in servers;
    if n > 0 {
      PositiveWindowsMerge(servers[..n], startTime, c);
    } else {
      assert Sum(servers[..n], c, 0) == 0;
    }
  }

  /** A server without a positive window wipes out everything before it. */
  lemma {:induction false} RestartsAfterEmptyWindow(before: seq<Server>, s: Server, after: seq<Server>,
                                                    startTime: nat, c: Column)
    requires Window(s, startTime) <= 0
    ensures Merged(before + [s] + after, startTime, c) == Merged(after, startTime, c)
    decreases |after|
  {
    var all := before + [s] + after;
    if after == [] {
      assert all[..|all| - 1] == before;
    } else {
      var n := |after| - 1;
      assert all[..|all| - 1] == before + [s] + after[..n];
      RestartsAfterEmptyWindow(before, s, after[..n], startTime, c);
    }
  }

  /**
   The merge computes what it is meant to exactly when all windows are positive, or the last
   server visited has an empty one, or there is no server at all. With an empty window
   anywhere else the result depends on the order of the servers and misses some of them.
   */
  lemma {:induction false} MergeIsFullIff(servers: seq<Server>, startTime: nat, c: Column)
    ensures IsFullMerge(Merged(servers, startTime, c), servers, startTime, c)
       <==> || servers == [] || AllPositive(servers, startTime)
            || Window(servers[|servers| - 1], startTime) <= 0
  {
    if servers != [] {
      var n := |servers| - 1;
      assert servers[n] in servers;
      if AllPositive(servers, startTime) {
        PositiveWindowsMerge(servers, startTime, c);
      }
    }
  }

  // ---- The start offset ----------------------------------------------------

  /** No server starts after `startTime`, the latest of all starts. */
  ghost predicate NoneLater(servers: seq<Server>, startTime: nat) {
    forall s | s in servers :: s.timestamp <= startTime
  }

  /** The events of all servers in the same second: `i` seconds after `startTime`. */
  function AlignedSum(servers: seq<Server>, startTime: nat, c: Column, i: nat): nat
    requires NoneLater(servers, startTime)
  {
    if servers == [] then 0
    else
      var n := |servers| - 1;
      assert servers[n] in servers;
      AlignedSum(servers[..n], startTime, c, i) + At(Values(servers[n], c), i + (startTime - servers[n].timestamp))
  }

  ghost predicate IsAligned(servers: seq<Server>, startTime: nat, c: Column)
    requires NoneLater(servers, startTime)
  {
    var m := Merged(servers, startTime, c);
    forall i | 0 <= i < |m| :: m[i] == AlignedSum(servers, startTime, c, i)
  }

  /** Reports of the same clients, with other numbers in them. */
  ghost predicate SameShape(servers: seq<Server>, others: seq<Server>) {
    |servers| == |others| && forall k | 0 <= k < |servers| :: SameSizes(servers[k], others[k])
  }

  ghost predicate SameSizes(s: Server, t: Server) {
    s.timestamp == t.timestamp && |s.rate| == |t.rate| && |s.read| == |t.read| && |s.write| == |t.write|
  }

  lemma ShapeKeepsStarts(servers: seq<Server>, others: seq<Server>, startTime: nat)
    requires SameShape(servers, others)
    ensures NoneLater(servers, startTime) ==> NoneLater(others, startTime)
  {
    forall k | 0 <= k < |others|
      ensures SameSizes(servers[k], others[k]) && servers[k] in servers
    {
    }
  }

  lemma {:induction false} ShapeKeepsLive(servers: seq<Server>, others: seq<Server>, startTime: nat)
    requires SameShape(servers, others)
    ensures LiveFrom(servers, startTime) == LiveFrom(others, startTime)
  {
    if servers != [] {
      var n := |servers| - 1;
      assert SameSizes(servers[n], others[n]);
      ShapeKeepsLive(servers[..n], others[..n], startTime);
    }
  }

  /** The servers from here on are live; the last window that is not positive has wiped out those before. */
  function LiveFrom(servers: seq<Server>, startTime: nat): (m: nat)
    ensures m <= |servers|
  {
    if servers == [] then 0
    else if Window(servers[|servers| - 1], startTime) <= 0 then |servers|
    else LiveFrom(servers[..|servers| - 1], startTime)
  }

  lemma MergedSnoc(servers: seq<Server>, s: Server, startTime: nat, c: Column)
    ensures Merged(servers + [s], startTime, c) == Add(Merged(servers, startTime, c), s, startTime, c)
  {
    assert (servers + [s])[..|servers|] == servers;
  }

  /** Only the live servers are merged, and their windows are positive. */
  lemma {:induction false} MergedAreLive(servers: seq<Server>, startTime: nat, c: Column)
    ensures var live := servers[LiveFrom(servers, startTime)..];
      AllPositive(live, startTime) && Merged(servers, startTime, c) == Merged(live, startTime, c)
  {
    if servers != [] {
      var n := |servers| - 1;
      if Window(servers[n], startTime) <= 0 {
        assert servers[|servers|..] == [];
      } else {
        var m := LiveFrom(servers[..n], startTime);
        MergedAreLive(servers[..n], startTime, c);
        hide Merged, Add, Window, LiveFrom;
        assert servers[m..] == servers[..n][m..] + [servers[n]] && servers == servers[..n] + [servers[n]];
        MergedSnoc(servers[..n], servers[n], startTime, c);
        MergedSnoc(servers[..n][m..], servers[n], startTime, c);
      }
    }
  }

  /** Without a late start, or without entries that are late, summing is aligned. */
  lemma {:induction false} SumIsAligned(servers: seq<Server>, startTime: nat, c: Column, i: nat)
    requires NoneLater(servers, startTime)
    requires forall s | s in servers :: s.timestamp == startTime || Values(s, c) == []
    ensures Sum(servers, c, i) == AlignedSum(servers, startTime, c, i)
  {
    if servers != [] {
      assert servers[|servers| - 1] in servers;
      SumIsAligned(servers[..|servers| - 1], startTime, c, i);
    }
  }

  lemma AlignedSnoc(servers: seq<Server>, s: Server, startTime: nat, c: Column, i: nat)
    requires NoneLater(servers, startTime) && NoneLater(servers + [s], startTime)
    ensures s.timestamp <= startTime
    ensures AlignedSum(servers + [s], startTime, c, i)
         == AlignedSum(servers, startTime, c, i) + At(Values(s, c), i + (startTime - s.timestamp))
  {
    assert (servers + [s])[|servers|] == s && (servers + [s])[..|servers|] == servers;
  }

  lemma {:induction false} AlignedConcat(a: seq<Server>, b: seq<Server>, startTime: nat, c: Column, i: nat)
    requires NoneLater(a, startTime) && NoneLater(b, startTime) && NoneLater(a + b, startTime)
    ensures AlignedSum(a + b, startTime, c, i) == AlignedSum(a, startTime, c, i) + AlignedSum(b, startTime, c, i)
    decreases |b|
  {
    if b == [] {
      assert a + b == a;
    } else {
      hide At, Values, AlignedSum;
      var init, last := b[..|b| - 1], b[|b| - 1];
      assert a + b == a + init + [last] && b == init + [last];
      AlignedConcat(a, init, startTime, c, i);
      AlignedSnoc(a + init, last, startTime, c, i);
      AlignedSnoc(init, last, startTime, c, i);
    }
  }

  lemma AlignedSplit(servers: seq<Server>, m: nat, startTime: nat, c: Column, i: nat)
    requires NoneLater(servers, startTime) && m <= |servers|
    ensures NoneLater(servers[..m], startTime) && NoneLater(servers[m..], startTime)
    ensures AlignedSum(servers, startTime, c, i)
         == AlignedSum(servers[..m], startTime, c, i) + AlignedSum(servers[m..], startTime, c, i)
  {
    assert servers[..m] + servers[m..] == servers;
    AlignedConcat(servers[..m], servers[m..], startTime, c, i);
  }

  /** Servers whose entries all lie before `startTime` add nothing. */
  lemma {:induction false} EarlyAddNothing(servers: seq<Server>, startTime: nat, c: Column, i: nat)
    requires NoneLater(servers, startTime)
    requires forall s | s in servers :: |Values(s, c)| <= startTime - s.timestamp
    ensures AlignedSum(servers, startTime, c, i) == 0
  {
    if servers != [] {
      assert servers[|servers| - 1] in servers;
      EarlyAddNothing(servers[..|servers| - 1], startTime, c, i);
    }
  }

  // Reports of zeros with a single 1.

  function Zeros(n: nat): (z: seq<nat>)
    ensures |z| == n && forall i | 0 <= i < n :: z[i] == 0
  {
    seq(n, i => 0)
  }

  function OneAt(n: nat, one: bool, p: nat): (z: seq<nat>)
    ensures |z| == n && forall i | 0 <= i < n :: z[i] == if one && i == p then 1 else 0
  {
    if one && p < n then Zeros(n)[p := 1] else Zeros(n)
  }

  /** A report of zeros of the same size, with a 1 at `p` if `one` is set. */
  function Flat(s: Server, one: bool, p: nat): (t: Server)
    ensures SameSizes(s, t)
  {
    Server(s.timestamp, OneAt(|s.rate|, one, p), OneAt(|s.read|, one, p), OneAt(|s.write|, one, p))
  }

  function Spike(servers: seq<Server>, k: nat, p: nat): (t: seq<Server>)
    ensures SameShape(servers, t)
  {
    seq(|servers|, j requires 0 <= j < |servers| => Flat(servers[j], j == k, p))
  }

  lemma FlatAt(s: Server, one: bool, p: nat, c: Column, i: nat)
    ensures At(Values(Flat(s, one, p), c), i) == if one && i == p && p < |Values(s, c)| then 1 else 0
  {
  }

  /** Reports that are zero but for entry `p` of the `k`-th, if there are so many. */
  ghost predicate IsSpike(t: seq<Server>, k: nat, p: nat, c: Column) {
    forall j, i: nat | 0 <= j < |t| :: At(Values(t[j], c), i) == if j == k && i == p then 1 else 0
  }

  lemma {:induction false} SpikeSums(t: seq<Server>, k: nat, p: nat, startTime: nat, c: Column)
    requires IsSpike(t, k, p, c) && NoneLater(t, startTime)
    ensures Sum(t, c, 0) == if k < |t| && p == 0 then 1 else 0
    ensures AlignedSum(t, startTime, c, 0) == if k < |t| && p == startTime - t[k].timestamp then 1 else 0
  {
    hide At, Values;
    if t != [] {
      var n := |t| - 1;
      assert t[n] in t;
      SpikeSums(t[..n], k, p, startTime, c);
    }
  }

  /** The first merged entry and the aligned sum of a spike: the one counts live servers only, the other all. */
  lemma SpikeMerged(servers: seq<Server>, k: nat, p: nat, startTime: nat, c: Column)
    requires NoneLater(servers, startTime) && k < |servers| && p < |Values(servers[k], c)|
    requires LiveFrom(servers, startTime) < |servers|
    ensures var t, m := Spike(servers, k, p), LiveFrom(servers, startTime);
      && SameShape(servers, t) && NoneLater(t, startTime) && |Merged(t, startTime, c)| > 0
      && Merged(t, startTime, c)[0] == (if m <= k && p == 0 then 1 else 0)
      && AlignedSum(t, startTime, c, 0) == if p == startTime - servers[k].timestamp then 1 else 0
  {
    hide At, Values, Merged, Add, AlignedSum, Sum, LiveFrom, Window, Spike, Shortest, AllPositive, IsSpike;
    var t, m := Spike(servers, k, p), LiveFrom(servers, startTime);
    ShapeKeepsStarts(servers, t, startTime);
    ShapeKeepsLive(servers, t, startTime);
    MergedAreLive(t, startTime, c);
    PositiveWindowsMerge(t[m..], startTime, c);
    SpikeIs(servers, k, p, c, m);
    SpikeSums(t, k, p, startTime, c);
    AlignedSplit(t, m, startTime, c, 0);
    SpikeSums(t[m..], if m <= k then k - m else |t|, p, startTime, c);
    assert SameSizes(servers[k], t[k]);
  }

  lemma SpikeIs(servers: seq<Server>, k: nat, p: nat, c: Column, m: nat)
    requires k < |servers| && p < |Values(servers[k], c)| && m <= |servers|
    ensures var t := Spike(servers, k, p);
      IsSpike(t, k, p, c) && IsSpike(t[m..], if m <= k then k - m else |t|, p, c)
  {
    var t := Spike(servers, k, p);
    forall j, i: nat | 0 <= j < |t|
      ensures At(Values(t[j], c), i) == if j == k && i == p then 1 else 0
    {
      FlatAt(servers[j], j == k, p, c, i);
    }
    hide At, Values;
    assert forall j | 0 <= j < |t| - m :: t[m..][j] == t[m + j];
  }

  // When the merge is aligned, by position of the servers.

  ghost predicate OnTime(s: Server, startTime: nat, c: Column) { s.timestamp == startTime || Values(s, c) == [] }

  ghost predicate AllEarly(s: Server, startTime: nat, c: Column) {
    s.timestamp + |Values(s, c)| <= startTime
  }

  /** Nothing is live, or everything live is on time and nothing that was wiped out reaches `startTime`. */
  ghost predicate Aligning(servers: seq<Server>, startTime: nat, c: Column) {
    var m := LiveFrom(servers, startTime);
    || m == |servers|
    || ((forall k | m <= k < |servers| :: OnTime(servers[k], startTime, c))
        && forall k | 0 <= k < m :: AllEarly(servers[k], startTime, c))
  }

  lemma AligningIsAligned(servers: seq<Server>, others: seq<Server>, startTime: nat, c: Column)
    requires SameShape(servers, others) && NoneLater(others, startTime) && Aligning(servers, startTime, c)
    ensures IsAligned(others, startTime, c)
  {
    var m := LiveFrom(servers, startTime);
    var live := others[m..];
    ShapeKeepsLive(servers, others, startTime);
    MergedAreLive(others, startTime, c);
    if m < |others| {
      PositiveWindowsMerge(live, startTime, c);
      forall k | 0 <= k < |others|
        ensures k < m ==> AllEarly(others[k], startTime, c)
        ensures m <= k ==> OnTime(others[k], startTime, c)
      {
        assert SameSizes(servers[k], others[k]);
      }
      forall i: nat
        ensures Sum(live, c, i) == AlignedSum(others, startTime, c, i)
      {
        AlignedSplit(others, m, startTime, c, i);
        EarlyAddNothing(others[..m], startTime, c, i);
        SumIsAligned(live, startTime, c, i);
      }
    }
  }

  lemma NotAligningIsMisplaced(servers: seq<Server>, startTime: nat, c: Column) returns (t: seq<Server>)
    requires NoneLater(servers, startTime) && !Aligning(servers, startTime, c)
    ensures SameShape(servers, t) && NoneLater(t, startTime) && !IsAligned(t, startTime, c)
  {
    hide At, Merged, AlignedSum, LiveFrom, Spike;
    var m := LiveFrom(servers, startTime);
    if k :| m <= k < |servers| && !OnTime(servers[k], startTime, c) {
      assert servers[k] in servers;
      t := Spike(servers, k, 0);
      SpikeMerged(servers, k, 0, startTime, c);
    } else {
      var k :| 0 <= k < m && !AllEarly(servers[k], startTime, c);
      assert servers[k] in servers;
      var offset := startTime - servers[k].timestamp;
      t := Spike(servers, k, offset);
      SpikeMerged(servers, k, offset, startTime, c);
    }
  }

  /**
   The offset of a server is meant to line the reports up in time. It only shortens them. For
   given starts and sizes of the reports, the merge adds up what belongs together, whatever is
   in them, exactly when it is empty, or every server since the last empty window was started
   at the very `startTime` or has no entries in the column, and no entry of those before lies
   after it.
   */
  lemma MergeAlignsIff(servers: seq<Server>, startTime: nat, c: Column)
    requires NoneLater(servers, startTime)
    ensures (forall others | SameShape(servers, others) :: NoneLater(others, startTime))
    ensures (forall others | SameShape(servers, others) :: IsAligned(others, startTime, c))
       <==> Aligning(servers, startTime, c)
  {
    forall others | SameShape(servers, others)
      ensures NoneLater(others, startTime)
      ensures Aligning(servers, startTime, c) ==> IsAligned(others, startTime, c)
    {
      ShapeKeepsStarts(servers, others, startTime);
      if Aligning(servers, startTime, c) { AligningIsAligned(servers, others, startTime, c); }
    }
    if !Aligning(servers, startTime, c) {
      var t := NotAligningIsMisplaced(servers, startTime, c);
    }
  }

  /** Two clients, the second started a second later: the first entry adds up different seconds. */
  lemma LateStartIsMisplaced()
    ensures var early, late := Server(0, [1, 2, 3], [], []), Server(1, [10, 20, 30], [], []);
      && NoneLater([early, late], 1)
      && |Merged([early, late], 1, Rate)| > 0 && Merged([early, late], 1, Rate)[0] == 11
      && AlignedSum([early, late], 1, Rate, 0) == 12
  {
    var early, late := Server(0, [1, 2, 3], [], []), Server(1, [10, 20, 30], [], []);
    assert [early, late][..1] == [early] && [early][..0] == [];
    assert Window(early, 1) == 2 && Window(late, 1) == 3;
    assert |Merged([early], 1, Rate)| == 2;
    assert AlignedSum([early][..0], 1, Rate, 0) == 0;
    assert AlignedSum([early], 1, Rate, 0) == At([1, 2, 3], 1) == 2;
    assert AlignedSum([early, late], 1, Rate, 0) == 2 + At([10, 20, 30], 0);
  }

  /** Three clients started together, the second without a report: the first one is left out. */
  lemma EmptyReportIsMisplaced()
    ensures var servers := [Server(0, [5], [], []), Server(0, [], [], []), Server(0, [7], [], [])];
      && NoneLater(servers, 0) && |Merged(servers, 0, Rate)| > 0
      && Merged(servers, 0, Rate)[0] == 7 && AlignedSum(servers, 0, Rate, 0) == 12
  {
    var a, b, c := Server(0, [5], [], []), Server(0, [], [], []), Server(0, [7], [], []);
    assert [a, b, c][..2] == [a, b] && [a, b][..1] == [a] && [a][..0] == [];
    assert Window(b, 0) == 0 && Window(c, 0) == 1;
    assert Merged([a, b], 0, Rate) == [];
    assert AlignedSum([a][..0], 0, Rate, 0) == 0;
    assert AlignedSum([a], 0, Rate, 0) == At([5], 0) == 5;
    assert AlignedSum([a, b], 0, Rate, 0) == 5 + At([], 0);
    assert AlignedSum([a, b, c], 0, Rate, 0) == 5 + At([7], 0);
  }

  /** For positive windows the order of the servers is irrelevant. */
  lemma {:induction false} ServerOrderIsIrrelevant(servers: seq<Server>, servers': seq<Server>,
                                                   startTime: nat, c: Column)
    requires multiset(servers) == multiset(servers') && AllPositive(servers, startTime)
    ensures Merged(servers, startTime, c) == Merged(servers', startTime, c)
  {
    if servers == [] {
      EmptyPermutation(servers');
    } else {
      SameElements(servers, servers');
      PositiveWindowsMerge(servers, startTime, c);
      PositiveWindowsMerge(servers', startTime, c);
      SameShortest(servers, servers', startTime);
      forall i: nat
        ensures Sum(servers, c, i) == Sum(servers', c, i)
      {
        SameSum(servers, servers', c, i);
      }
    }
  }

  lemma SameElements(s: seq<Server>, t: seq<Server>)
    requires multiset(s) == multiset(t) && s != []
    ensures t != [] && forall x :: x in s <==> x in t
  {
    assert s[0] in multiset(t);
    assert forall x :: x in s <==> x in multiset(s);
    assert forall x :: x in t <==> x in multiset(t);
  }

  lemma {:induction false} ShortestIs(servers: seq<Server>, startTime: nat)
    requires servers != []
    ensures forall s | s in servers :: Shortest(servers, startTime) <= Window(s, startTime)
    ensures exists s :: s in servers && Shortest(servers, startTime) == Window(s, startTime)
  {
    hide Window;
    var n := |servers| - 1;
    assert forall s :: s in servers <==> s in servers[..n] || s == servers[n];
    if n > 0 {
      ShortestIs(servers[..n], startTime);
      var s :| s in servers[..n] && Shortest(servers[..n], startTime) == Window(s, startTime);
      assert s in servers;
    }
  }

  /** The merge is as long as the latest start leaves of every report, and no shorter. */
  lemma MergedLength(servers: seq<Server>, startTime: nat, c: Column)
    requires servers != [] && forall s | s in servers :: startTime < s.timestamp + |s.rate|
    ensures var n := |Merged(servers, startTime, c)|;
      && (forall s | s in servers :: startTime + n <= s.timestamp + |s.rate|)
      && exists s | s in servers :: startTime + n == s.timestamp + |s.rate|
  {
    PositiveWindowsMerge(servers, startTime, c);
    ShortestIs(servers, startTime);
    var s :| s in servers && Shortest(servers, startTime) == Window(s, startTime);
    assert startTime + |Merged(servers, startTime, c)| == s.timestamp + |s.rate|;
  }

  lemma OneSecondMerged(s: Server, t: Server, c: Column)
    requires s.timestamp == t.timestamp && |s.rate| == |t.rate| == 1
    ensures Merged([s, t], s.timestamp, c) == [At(Values(s, c), 0) + At(Values(t, c), 0)]
  {
    var none: seq<Server> := [];
    assert [s, t][..1] == [s] && [s][..0] == none;
    assert Merged([s], s.timestamp, c) == Add(Merged(none, s.timestamp, c), s, s.timestamp, c);
    assert Merged([s], s.timestamp, c) == [At(Values(s, c), 0)];
  }

  /** Each column adds up its own numbers. */
  lemma ColumnsAreKept(s: Server, t: Server)
    requires s.timestamp == t.timestamp && |s.rate| == |s.read| == |s.write| == |t.rate| == |t.read| == |t.write| == 1
    ensures Merged([s, t], s.timestamp, Rate) == [s.rate[0] + t.rate[0]]
    ensures Merged([s, t], s.timestamp, Read) == [s.read[0] + t.read[0]]
    ensures Merged([s, t], s.timestamp, Write) == [s.write[0] + t.write[0]]
  {
    OneSecondMerged(s, t, Rate);
    OneSecondMerged(s, t, Read);
    OneSecondMerged(s, t, Write);
  }

  lemma SameShortest(s: seq<Server>, t: seq<Server>, startTime: nat)
    requires s != [] && t != [] && forall x :: x in s <==> x in t
    ensures Shortest(s, startTime) == Shortest(t, startTime)
  {
    ShortestIs(s, startTime);
    ShortestIs(t, startTime);
  }

  lemma {:induction false} TakeOut(servers: seq<Server>, k: nat, c: Column, i: nat)
    requires k < |servers|
    ensures Sum(servers, c, i) == Sum(Drop(servers, k), c, i) + At(Values(servers[k], c), i)
  {
    hide At, Values;
    var n := |servers| - 1;
    if k == n {
      assert Drop(servers, k) == servers[..n];
    } else {
      TakeOut(servers[..n], k, c, i);
      var d := Drop(servers, k);
      assert d[|d| - 1] == servers[n] && d[..|d| - 1] == Drop(servers[..n], k);
    }
  }

  lemma {:induction false} SameSum(s: seq<Server>, t: seq<Server>, c: Column, i: nat)
    requires multiset(s) == multiset(t)
    ensures Sum(s, c, i) == Sum(t, c, i)
    decreases |s|
  {
    if s == [] {
      EmptyPermutation(t);
    } else {
      var k := FindHead(s, t);
      TakeOut(s, 0, c, i);
      TakeOut(t, k, c, i);
      assert Drop(s, 0) == s[1..];
      SameSum(s[1..], Drop(t, k), c, i);
    }
  }
}
