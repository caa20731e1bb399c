/**
 The list of saved purchase ids: at most five, a reused id moving to the end.
 */
module PurchaseIds {
  import opened Bytes

  const NUM_SAVED_PURCHASE_IDS := 5

  ghost predicate Distinct<T>(ids: seq<T>) {
    forall i, j | 0 <= i < j < |ids| :: ids[i] != ids[j]
  }

  ghost predicate ValidIds(ids: seq<Text>) {
    |ids| <= NUM_SAVED_PURCHASE_IDS && Distinct(ids)
  }

  /** The list without its (first) `id`. */
  function Without<T(==)>(ids: seq<T>, id: T): (r: seq<T>)
    ensures id !in ids ==> r == ids
    ensures id in ids ==> |r| == |ids| - 1
  {
    if ids == [] then []
    else if ids[0] == id then ids[1..]
    else [ids[0]] + Without(ids[1..], id)
  }

  /** The list after one `SetPurchaseId`. */
  function Use<T(==)>(ids: seq<T>, id: T): seq<T> {
    if id in ids then Without(ids, id) + [id]
    else if |ids| == NUM_SAVED_PURCHASE_IDS then ids[1..] + [id]
    else ids + [id]
  }

  function UseAll(ids: seq<Text>, history: seq<Text>): seq<Text>
    decreases |history|
  {
    if history == [] then ids
    else UseAll(Use(ids, history[0]), history[1..])
  }

  lemma {:induction false} UseAllLast(ids: seq<Text>, history: seq<Text>, id: Text)
    ensures UseAll(ids, history + [id]) == Use(UseAll(ids, history), id)
    decreases |history|
  {
    if history == [] {
      assert history + [id] == [id];
    } else {
      assert (history + [id])[1..] == history[1..] + [id];
      UseAllLast(Use(ids, history[0]), history[1..], id);
    }
  }

  // ---- Reference: the distinct ids of a history, in order of last use ------

  /** Every id once, at the place of its last use. */
  function Recency(history: seq<Text>): seq<Text> {
    if history == [] then []
    else if history[0] in history[1..] then Recency(history[1..])
    else [history[0]] + Recency(history[1..])
  }

  function LastFive<T>(ids: seq<T>): seq<T> {
    if |ids| <= NUM_SAVED_PURCHASE_IDS then ids else ids[|ids| - NUM_SAVED_PURCHASE_IDS..]
  }

  lemma {:induction false} RecencyIs(history: seq<Text>)
    ensures Distinct(Recency(history))
    ensures forall id :: id in Recency(history) <==> id in history
  {
    if history != [] {
      RecencyIs(history[1..]);
      assert forall id :: id in history <==> id == history[0] || id in history[1..];
      var R := Recency(history[1..]);
      assert forall j | 0 <= j < |R| :: R[j] in R;
    }
  }

  /** Of two ids in the list, the later one was used after the last use of the earlier one. */
  lemma {:induction false} RecencyIsByLastUse(history: seq<Text>, i: nat, j: nat) returns (p: nat)
    requires i < j < |Recency(history)|
    ensures p < |history| && history[p] == Recency(history)[j] && Recency(history)[i] !in history[p..]
  {
    var h, R := history[1..], Recency(history);
    if history[0] in h {
      p := RecencyIsByLastUse(h, i, j);
      assert history[p + 1..] == h[p..];
      p := p + 1;
    } else if i > 0 {
      assert R[i] == Recency(h)[i - 1] && R[j] == Recency(h)[j - 1];
      p := RecencyIsByLastUse(h, i - 1, j - 1);
      assert history[p + 1..] == h[p..];
      p := p + 1;
    } else {
      RecencyIs(h);
      assert R[j] == Recency(h)[j - 1] && R[j] in h;
      var q :| 0 <= q < |h| && h[q] == R[j];
      p := q + 1;
      assert forall x | x in history[p..] :: x in h;
    }
  }

  lemma {:induction false} RecencyLast(history: seq<Text>, id: Text)
    ensures Recency(history + [id]) == Without(Recency(history), id) + [id]
  {
    if history == [] {
      assert history + [id] == [id];
    } else {
      var h := history[1..];
      assert (history + [id])[1..] == h + [id];
      RecencyLast(h, id);
      RecencyIs(h);
      RecencyIs(history);
      if history[0] !in h {
        assert Recency(history)[1..] == Recency(h);
      }
    }
  }

  lemma {:induction false} WithoutConcat<T>(s: seq<T>, t: seq<T>, id: T)
    ensures Without(s + t, id) == if id in s then Without(s, id) + t else s + Without(t, id)
  {
    if s == [] {
      assert s + t == t;
    } else {
      var u := s[1..];
      assert (s + t)[1..] == u + t;
      WithoutConcat(u, t, id);
      assert Without(s + t, id) == if s[0] == id then u + t else [s[0]] + Without(u + t, id);
    }
  }

  lemma {:induction false} UseLastFive<T>(R: seq<T>, id: T)
    requires Distinct(R)
    ensures Use(LastFive(R), id) == LastFive(Without(R, id) + [id])
  {
    if |R| > NUM_SAVED_PURCHASE_IDS {
      hide Use, Without, Distinct;
      assert R == R[..|R| - NUM_SAVED_PURCHASE_IDS] + LastFive(R);
      UseLastFiveOfMany(R[..|R| - NUM_SAVED_PURCHASE_IDS], LastFive(R), id);
    }
  }

  lemma {:induction false} UseLastFiveOfMany<T>(early: seq<T>, five: seq<T>, id: T)
    requires Distinct(early + five) && |five| == NUM_SAVED_PURCHASE_IDS
    ensures Use(five, id) == LastFive(Without(early + five, id) + [id])
  {
    WithoutConcat(early, five, id);
    if id in early {
      var i :| 0 <= i < |early| && early[i] == id;
      forall j | 0 <= j < |five|
        ensures five[j] != id
      {
        assert (early + five)[i] != (early + five)[|early| + j];
      }
      EndOf(Without(early, id), five, id);
    } else if id in five {
      assert Without(early + five, id) + [id] == early + (Without(five, id) + [id]);
    } else {
      EndOf(early, five, id);
    }
  }

  lemma EndOf<T>(s: seq<T>, five: seq<T>, id: T)
    requires |five| == NUM_SAVED_PURCHASE_IDS
    ensures LastFive(s + five + [id]) == five[1..] + [id]
  {
  }

  /**
   After any history of SetPurchaseId calls on an empty list, the list is exactly the last
   five of the distinct ids in order of last use.
   */
  lemma {:induction false} KeepsTheMostRecent(history: seq<Text>)
    ensures var ids := Recency(history);
      UseAll([], history) == if |ids| <= 5 then ids else ids[|ids| - 5..]
  {
    if history != [] {
      var h, id := history[..|history| - 1], history[|history| - 1];
      assert history == h + [id];
      KeepsTheMostRecent(h);
      UseAllLast([], h, id);
      RecencyIs(h);
      UseLastFive(Recency(h), id);
      RecencyLast(h, id);
    }
  }

  lemma {:induction false} RecencyOfDistinct(ids: seq<Text>)
    requires Distinct(ids)
    ensures Recency(ids) == ids
  {
    if ids != [] {
      RecencyOfDistinct(ids[1..]);
    }
  }

  /** Using a valid list's own ids in order, as the decoder does, rebuilds the list. */
  lemma {:induction false} UsingItRebuildsIt(ids: seq<Text>)
    requires ValidIds(ids)
    ensures UseAll([], ids) == ids
  {
    KeepsTheMostRecent(ids);
    RecencyOfDistinct(ids);
  }

  lemma UseKeepsValid(ids: seq<Text>, id: Text)
    requires ValidIds(ids)
    ensures ValidIds(Use(ids, id))
  {
    UsingItRebuildsIt(ids);
    UseAllLast([], ids, id);
    KeepsTheMostRecent(ids + [id]);
    RecencyIs(ids + [id]);
  }
}
