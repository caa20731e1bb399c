/**
 The class `VCookie`. Its variables live in `relVar`, in order of insertion, and
 `relVarSort` lists the indices of `relVar` in ascending order of relation id. `Value()` is
 the cookie as a value (module Cookies); every method says what it does to that.
 */
module VCookies {
  import opened Bytes
  import opened VarIndex
  import opened VarProperties
  import opened Lookups
  import opened PurchaseIds
  import opened Cookies

  type VarId = UInt32
  const VAR_NOT_SET: VarId := 0xFFFF_FFFF

  datatype RelVarImpl = RelVarImpl(relationId: RelationId, modified: bool, elems: seq<RelVar>)

  // ---- The two-level index -------------------------------------------------

  /** `order` is a permutation of the indices of `vars` that sorts them by relation id. */
  ghost predicate Sorts(vars: seq<RelVarImpl>, order: seq<nat>) {
    && |order| == |vars|
    && (forall i | 0 <= i < |order| :: order[i] < |vars|)
    && (forall v | 0 <= v < |vars| :: v in order)
    && forall i, j | 0 <= i < j < |order| :: vars[order[i]].relationId < vars[order[j]].relationId
  }

  ghost function EntryOf(v: RelVarImpl): Entry { Entry(v.relationId, v.elems) }

  ghost function Listing(vars: seq<RelVarImpl>, order: seq<nat>): (L: seq<Entry>)
    requires Sorts(vars, order)
    ensures |L| == |order| && Ascending(L)
  {
    seq(|order|, i requires 0 <= i < |order| => EntryOf(vars[order[i]]))
  }

  lemma EmptyListing()
    ensures Sorts([], []) && Listing([], []) == [] && Distinct<Text>([])
  {
  }

  function Inserted(order: seq<nat>, p: nat, n: nat): seq<nat>
    requires p <= |order|
  {
    order[..p] + [n] + order[p..]
  }

  lemma InsertSorts(vars: seq<RelVarImpl>, order: seq<nat>, p: nat, v: RelVarImpl)
    requires Sorts(vars, order) && p <= |order|
    requires forall i | 0 <= i < p :: vars[order[i]].relationId < v.relationId
    requires forall i | p <= i < |order| :: vars[order[i]].relationId > v.relationId
    ensures Sorts(vars + [v], Inserted(order, p, |vars|))
  {
    var vars', order' := vars + [v], Inserted(order, p, |vars|);
    forall i | 0 <= i < |order'|
      ensures order'[i] < |vars'|
      ensures vars'[order'[i]] == if i < p then vars[order[i]] else if i == p then v else vars[order[i - 1]]
    {
      assert order'[i] == if i < p then order[i] else if i == p then |vars| else order[i - 1];
    }
    InsertCovers(order, p, |vars|);
  }

  lemma InsertListing(vars: seq<RelVarImpl>, order: seq<nat>, p: nat, v: RelVarImpl)
    requires Sorts(vars, order) && p == Pos(Listing(vars, order), v.relationId)
    requires p == |order| || vars[order[p]].relationId != v.relationId
    ensures Sorts(vars + [v], Inserted(order, p, |vars|))
    ensures Listing(vars + [v], Inserted(order, p, |vars|)) == Put(Listing(vars, order), v.relationId, v.elems)
  {
    var L := Listing(vars, order);
    forall i | 0 <= i < |order|
      ensures if i < p then vars[order[i]].relationId < v.relationId else vars[order[i]].relationId > v.relationId
    {
      assert L[i].id == vars[order[i]].relationId;
      assert p <= i ==> L[p].id <= L[i].id;
    }
    InsertSorts(vars, order, p, v);
    ListingInserted(vars, order, p, v);
    assert Put(L, v.relationId, v.elems) == L[..p] + [EntryOf(v)] + L[p..];
  }

  lemma ListingInserted(vars: seq<RelVarImpl>, order: seq<nat>, p: nat, v: RelVarImpl)
    requires Sorts(vars, order) && p <= |order| && Sorts(vars + [v], Inserted(order, p, |vars|))
    ensures var L := Listing(vars, order);
      Listing(vars + [v], Inserted(order, p, |vars|)) == L[..p] + [EntryOf(v)] + L[p..]
  {
    var L, order' := Listing(vars, order), Inserted(order, p, |vars|);
    var M := L[..p] + [EntryOf(v)] + L[p..];
    forall i | 0 <= i < |order'|
      ensures EntryOf((vars + [v])[order'[i]]) == M[i]
    {
      assert order'[i] == if i < p then order[i] else if i == p then |vars| else order[i - 1];
    }
  }

  lemma InsertCovers(order: seq<nat>, p: nat, n: nat)
    requires p <= |order| && forall v | 0 <= v < n :: v in order
    ensures forall v | 0 <= v < n + 1 :: v in Inserted(order, p, n)
  {
    assert order == order[..p] + order[p..];
    forall v | 0 <= v < n + 1
      ensures v in Inserted(order, p, n)
    {
      if v < n {
        assert v in order;
        assert v in order[..p] + order[p..];
      }
    }
  }

  lemma UpdateListing(vars: seq<RelVarImpl>, order: seq<nat>, p: nat, v: RelVarImpl)
    requires Sorts(vars, order) && p < |order| && v.relationId == vars[order[p]].relationId
    ensures Sorts(vars[order[p] := v], order)
    ensures Listing(vars[order[p] := v], order) == Listing(vars, order)[p := EntryOf(v)]
    ensures Indexed(Listing(vars, order), v.relationId) && Pos(Listing(vars, order), v.relationId) == p
  {
    PosUnique(Listing(vars, order), v.relationId, p);
    var vars' := vars[order[p] := v];
    assert forall i | 0 <= i < |order| && i != p :: order[i] != order[p];
    assert forall i | 0 <= i < |order| :: vars'[order[i]] == if i == p then v else vars[order[i]];
  }

  lemma {:induction false} WithoutAt(ids: seq<Text>, k: nat, id: Text)
    requires k < |ids| && ids[k] == id && id !in ids[..k]
    ensures Without(ids, id) == ids[..k] + ids[k + 1..]
  {
    var rest := ids[k..];
    assert ids == ids[..k] + rest;
    WithoutConcat(ids[..k], rest, id);
  }

  lemma ShiftStep(before: seq<Text>, ids: seq<Text>, start: nat, i: nat)
    requires start <= i && i + 1 < |ids| == |before|
    requires ids[..i] == before[..start] + before[start + 1..i + 1] && ids[i + 1..] == before[i + 1..]
    ensures var ids' := ids[i := ids[i + 1]];
      ids'[..i + 1] == before[..start] + before[start + 1..i + 2] && ids'[i + 2..] == before[i + 2..]
  {
    assert ids[i + 1] == ids[i + 1..][0] == before[i + 1];
    assert ids[i + 2..] == ids[i + 1..][1..] && before[i + 2..] == before[i + 1..][1..];
    assert before[start + 1..i + 2] == before[start + 1..i + 1] + [before[i + 1]];
    assert ids[i := ids[i + 1]][..i + 1] == ids[..i] + [before[i + 1]];
  }

  /** Storing a variable at the place the search found: in place if it is there, inserted if not. */
  lemma StoreListing(vars: seq<RelVarImpl>, order: seq<nat>, p: nat, v: RelVarImpl)
    requires Sorts(vars, order) && p == Pos(Listing(vars, order), v.relationId)
    ensures var L := Listing(vars, order);
      if p < |order| && vars[order[p]].relationId == v.relationId then
        && Sorts(vars[order[p] := v], order)
        && Listing(vars[order[p] := v], order) == Put(L, v.relationId, v.elems)
        && Elems(L, v.relationId) == vars[order[p]].elems
      else
        && Sorts(vars + [v], Inserted(order, p, |vars|))
        && Listing(vars + [v], Inserted(order, p, |vars|)) == Put(L, v.relationId, v.elems)
        && Elems(L, v.relationId) == []
  {
    if p < |order| && vars[order[p]].relationId == v.relationId {
      UpdateListing(vars, order, p, v);
    } else {
      InsertListing(vars, order, p, v);
    }
  }

  lemma AddListing(vars: seq<RelVarImpl>, order: seq<nat>, id: nat, e: RelVar)
    requires Sorts(vars, order) && id < |vars|
    ensures var v := RelVarImpl(vars[id].relationId, true, vars[id].elems + [e]);
      && Sorts(vars[id := v], order)
      && Listing(vars[id := v], order) == VarIndex.AddLinear(Listing(vars, order), vars[id].relationId, e)
  {
    assert id in order;
    var p :| 0 <= p < |order| && order[p] == id;
    UpdateListing(vars, order, p, RelVarImpl(vars[id].relationId, true, vars[id].elems + [e]));
  }

  lemma FirstKeeps(L: seq<Entry>, rid: RelationId, e: RelVar, maxLinear: UInt32)
    requires |Elems(L, rid)| == 1 && e.value != []
    ensures VarIndex.SetVar(L, rid, e, First, maxLinear) == L
  {
  }

  // ---- Modified marks ------------------------------------------------------

  /** The id of the first variable with a modified mark at or after a position of the index. */
  ghost function ModifiedFrom(vars: seq<RelVarImpl>, order: seq<nat>, start: nat): RelationId
    requires Sorts(vars, order) && start <= |order|
    decreases |order| - start
  {
    if start == |order| then INVALID_RID
    else if vars[order[start]].modified then vars[order[start]].relationId
    else ModifiedFrom(vars, order, start + 1)
  }

  lemma {:induction false} AllMarked(vars: seq<RelVarImpl>, order: seq<nat>, start: nat)
    requires Sorts(vars, order) && start <= |order| && forall v | 0 <= v < |vars| :: vars[v].modified
    ensures ModifiedFrom(vars, order, start) == IndexedFrom(Listing(vars, order), start)
  {
  }

  // ---- The class -----------------------------------------------------------

  class VCookie {
    var flags: Flags  // newCookie, modified, trafficModified, …
    var key: Key      // userid, visid_high, visid_low

    var lastHitTimeGMT: Time
    var lastHitTimeVisitorLocal: Time
    var firstHitTimeGMT: Time
    var lastVisitNum: UInt32

    var firstHitReferrer: Text
    var firstHitPageUrl: Text
    var firstHitPagename: Text
    var lastPurchaseTimeGMT: Time
    var lastPurchaseNum: UInt32
    var purchaseIds: seq<Text>

    var merchandising: Text

    var relVar: seq<RelVarImpl>
    var relVarSort: seq<nat>

    /** The index is sorted, the purchase ids are valid, and no variable ever loses its own modified mark. */
    ghost predicate Valid()
      reads this
    {
      && Sorts(relVar, relVarSort)
      && ValidIds(purchaseIds)
      && forall v | 0 <= v < |relVar| :: relVar[v].modified
    }

    ghost function Value(): (c: Cookie)
      reads this
      requires Valid()
      ensures WellFormed(c)
    {
      Cookie(key,
             firstHitTimeGMT, lastHitTimeGMT, lastHitTimeVisitorLocal, lastVisitNum,
             lastPurchaseTimeGMT, firstHitReferrer, firstHitPageUrl, firstHitPagename, lastPurchaseNum,
             merchandising, purchaseIds, Listing(relVar, relVarSort), flags)
    }

    /** The constructor, up to the point where it asks the store. */
    constructor (user: UInt32, high: UInt64, low: UInt64, newVisitor: bool)
      ensures Valid() && Value() == Blank(Key(user, high, low), Unmodified(newVisitor))
    {
      key, flags := Key(user, high, low), Unmodified(newVisitor);
      lastHitTimeGMT, lastHitTimeVisitorLocal, firstHitTimeGMT, lastVisitNum := 0, 0, 0, 0;
      lastPurchaseTimeGMT, lastPurchaseNum := 0, 0;
      firstHitReferrer, firstHitPageUrl, firstHitPagename, merchandising, purchaseIds := [], [], [], [], [];
      relVar, relVarSort := [], [];
    }

    /** The traffic and e-commerce sections of `Reset`. */
    method ClearScalars()
      modifies `lastHitTimeGMT, `lastHitTimeVisitorLocal, `firstHitTimeGMT, `lastVisitNum
      modifies `firstHitReferrer, `firstHitPageUrl, `firstHitPagename
      modifies `lastPurchaseTimeGMT, `lastPurchaseNum, `purchaseIds
      ensures lastHitTimeGMT == 0 && lastHitTimeVisitorLocal == 0 && firstHitTimeGMT == 0 && lastVisitNum == 0
      ensures firstHitReferrer == [] && firstHitPageUrl == [] && firstHitPagename == []
      ensures lastPurchaseTimeGMT == 0 && lastPurchaseNum == 0 && purchaseIds == []
    {
      lastHitTimeGMT, lastHitTimeVisitorLocal, firstHitTimeGMT, lastVisitNum := 0, 0, 0, 0;
      firstHitReferrer, firstHitPageUrl, firstHitPagename := [], [], [];
      lastPurchaseTimeGMT, lastPurchaseNum, purchaseIds := 0, 0, [];
    }

    /** Forgets everything but the modified flags. */
    method Reset(user: UInt32, high: UInt64, low: UInt64)
      requires Valid()
      modifies this
      ensures Valid() && Value() == Blank(Key(user, high, low), old(Value()).flags)
    {
      EmptyListing();
      hide Sorts, Listing, Distinct;
      key := Key(user, high, low);
      ClearScalars();
      merchandising := [];
      relVar, relVarSort := [], [];
    }

    /** What the constructor does after loading and `Store` after saving. */
    method ClearModified()
      requires Valid()
      modifies this
      ensures Valid() && Value() == old(Value()).(flags := Unmodified(old(flags.newCookie)))
    {
      flags := Unmodified(flags.newCookie);
    }

    // ---- Scalars -----------------------------------------------------------

    method SetFirstHitTimeGMT(t: Time)
      requires Valid()
      modifies this
      ensures Valid() && Value() == Apply(old(Value()), FirstHit(t))
    {
      flags := Traffic(flags);
      firstHitTimeGMT := t;
    }

    method SetLastHitTimeGMT(t: Time)
      requires Valid()
      modifies this
      ensures Valid() && Value() == Apply(old(Value()), LastHit(t))
    {
      flags := Traffic(flags);
      lastHitTimeGMT := t;
    }

    method SetLastHitTimeVisitorLocal(t: Time)
      requires Valid()
      modifies this
      ensures Valid() && Value() == Apply(old(Value()), LastHitLocal(t))
    {
      flags := Traffic(flags);
      lastHitTimeVisitorLocal := t;
    }

    method SetLastVisitNum(n: UInt32)
      requires Valid()
      modifies this
      ensures Valid() && Value() == Apply(old(Value()), VisitNum(n))
    {
      flags := Traffic(flags);
      lastVisitNum := n;
    }

    method SetLastPurchaseTimeGMT(t: Time)
      requires Valid()
      modifies this
      ensures Valid() && Value() == Apply(old(Value()), LastPurchase(t))
    {
      flags := Ecommerce(flags);
      lastPurchaseTimeGMT := t;
    }

    method SetFirstHitReferrer(s: Text)
      requires Valid()
      modifies this
      ensures Valid() && Value() == Apply(old(Value()), Referrer(s))
    {
      flags := Ecommerce(flags);
      firstHitReferrer := s;
    }

    method SetFirstHitUrl(s: Text)
      requires Valid()
      modifies this
      ensures Valid() && Value() == Apply(old(Value()), Url(s))
    {
      flags := Ecommerce(flags);
      firstHitPageUrl := s;
    }

    method SetFirstHitPagename(s: Text)
      requires Valid()
      modifies this
      ensures Valid() && Value() == Apply(old(Value()), Pagename(s))
    {
      flags := Ecommerce(flags);
      firstHitPagename := s;
    }

    method SetLastPurchaseNum(n: UInt32)
      requires Valid()
      modifies this
      ensures Valid() && Value() == Apply(old(Value()), PurchaseNum(n))
    {
      flags := Ecommerce(flags);
      lastPurchaseNum := n;
    }

    method SetMerchandising(s: Text)
      requires Valid()
      modifies this
      ensures Valid() && Value() == Apply(old(Value()), CookieOp.Merchandising(s))
    {
      flags := Merchandised(flags);
      merchandising := s;
    }

    /** Answers with the other time. */
    function GetLastHitTimeVisitorLocal(): (t: Time)
      requires Valid()
      reads this
      ensures t == Value().lastHit == Enumerated(Value()).lastHitLocal
    {
      lastHitTimeGMT
    }

    /** Answers with the last hit time, too. */
    function GetLastPurchaseTimeGMT(): (t: Time)
      requires Valid()
      reads this
      ensures t == Value().lastHit == Enumerated(Value()).lastPurchase
    {
      lastHitTimeGMT
    }

    // ---- Purchase ids ------------------------------------------------------

    /** Moves the id at `i` to the end, the ones behind it each one place forward. */
    method MoveToEnd(start: nat, id: Text)
      requires start < |purchaseIds| && purchaseIds[start] == id
      modifies this`purchaseIds
      ensures purchaseIds == old(purchaseIds[..start] + purchaseIds[start + 1..]) + [id]
    {
      ghost var before := purchaseIds;
      var i := start;
      if i + 1 != |purchaseIds| {
        var j := i + 1;
        while j != |purchaseIds|
          invariant start < j == i + 1 <= |purchaseIds| == |before|
          invariant purchaseIds[..i] == before[..start] + before[start + 1..j]
          invariant purchaseIds[j..] == before[j..]
        {
          ShiftStep(before, purchaseIds, start, i);
          purchaseIds := purchaseIds[i := purchaseIds[j]];
          i, j := i + 1, j + 1;
        }
        purchaseIds := purchaseIds[i := id];
      }
      assert purchaseIds == purchaseIds[..i] + [id];
    }

    /** Answers whether the id was absent. A known id moves to the end. */
    method SetPurchaseId(id: Text) returns (added: bool)
      requires Valid()
      modifies this
      ensures Valid() && Value() == Apply(old(Value()), PurchaseId(id))
      ensures added <==> id !in old(purchaseIds)
    {
      UseKeepsValid(purchaseIds, id);
      hide Sorts, Listing, ValidIds, Without;
      var i := 0;
      while i < |purchaseIds|
        invariant 0 <= i <= |purchaseIds| && id !in purchaseIds[..i]
      {
        if purchaseIds[i] == id {
          WithoutAt(purchaseIds, i, id);
          MoveToEnd(i, id);
          return false;
        }
        i := i + 1;
      }
      if |purchaseIds| == NUM_SAVED_PURCHASE_IDS {
        purchaseIds := purchaseIds[1..];
      }
      purchaseIds := purchaseIds + [id];
      flags := Ecommerce(flags);
      return true;
    }

    // ---- Variables: search -------------------------------------------------

    /** Binary search over `relVarSort`. Note the step `low := mid`, which needs the way out at `mid == low`. */
    method FindRelationPos(rid: RelationId) returns (pos: nat)
      requires Valid()
      ensures pos == Pos(Value().vars, rid)
    {
      ghost var L := Value().vars;
      AtMost65536(L);
      var low, high := 0, |relVarSort|;
      while low < high
        invariant 0 <= low <= high <= |L|
        invariant forall i | 0 <= i < low :: L[i].id < rid
        invariant forall i | high <= i < |L| :: rid < L[i].id
      {
        assert low + high < U32;
        var mid := (low + high) / 2;
        var id := relVar[relVarSort[mid]].relationId;
        assert id == L[mid].id;
        if id == rid {
          PosUnique(L, rid, mid);
          return mid;
        }
        if id < rid {
          if mid == low {
            PosUnique(L, rid, high);
            return high;
          }
          low := mid;
        } else {
          high := mid;
        }
      }
      PosUnique(L, rid, low);
      return low;
    }

    /** The handle of the least indexed id not below `rid`; there is no check that it is `rid` itself. */
    method FindRelationId(rid: RelationId) returns (vid: VarId)
      requires Valid()
      ensures var L := Value().vars; var p := Pos(L, rid);
        if p < |L| then vid < |relVar| && vid == relVarSort[p] && EntryOf(relVar[vid]) == L[p]
        else vid == VAR_NOT_SET
      ensures |relVar| < VAR_NOT_SET
    {
      AtMost65536(Value().vars);
      var pos := FindRelationPos(rid);
      if pos < |relVarSort| {
        return relVarSort[pos];
      }
      return VAR_NOT_SET;
    }

    // ---- Variables: update -------------------------------------------------

    method ClearVar(rid: RelationId)
      requires Valid()
      modifies this
      ensures Valid() && Value() == Apply(old(Value()), ClearVariable(rid))
    {
      var vid := FindRelationId(rid);
      if vid != VAR_NOT_SET {
        ghost var p := Pos(Value().vars, rid);
        ghost var v := RelVarImpl(relVar[vid].relationId, true, []);
        UpdateListing(relVar, relVarSort, p, v);
        relVar := relVar[vid := relVar[vid].(elems := [])];
        relVar := relVar[vid := relVar[vid].(modified := true)];
        assert relVar == old(relVar)[vid := v];
      }
    }

    /** The elements of a variable after `e` was allocated to it. */
    method Place(had: seq<RelVar>, e: RelVar, alloc: AllocationType, maxLinear: UInt32) returns (elems: seq<RelVar>)
      requires !(alloc.First? && |had| == 1)
      ensures elems == Allocate(had, e, alloc, maxLinear)
    {
      elems := had;
      var index;
      if !alloc.Linear? {
        elems := if elems == [] then [BLANK] else elems[..1];
        index := 0;
      } else {
        var curSize := |elems|;
        if maxLinear != MAX_LINEAR_INFINITE {
          while curSize >= maxLinear && curSize > 0
            invariant curSize == |elems| <= |had| && elems == had[|had| - curSize..]
            invariant curSize == |had| || curSize >= maxLinear - 1
          {
            elems := elems[1..];
            curSize := curSize - 1;
          }
        }
        assert elems == Room(had, maxLinear);
        elems := elems + [BLANK];
        index := curSize % 0x1_0000_0000;
      }
      elems := elems[index := e];
    }

    /** Returns a handle for AddLinearElement when a LINEAR element was stored. */
    method SetVar(rid: RelationId, val: Text, timestamp: Time, revision: Byte, alloc: AllocationType,
                  maxLinear: UInt32 := MAX_LINEAR_NOT_SET) returns (handle: VarId)
      requires Valid()
      modifies this
      ensures Valid()
      ensures Value() == Apply(old(Value()), SetVariable(rid, RelVar(val, timestamp, revision), alloc, maxLinear))
      ensures handle != VAR_NOT_SET <==> val != [] && alloc.Linear?
      ensures handle != VAR_NOT_SET ==> handle < |relVar| && relVar[handle].relationId == rid
    {
      if val == [] {
        if alloc.Last? {
          ClearVar(rid);
        }
        return VAR_NOT_SET;
      }
      handle := StoreVar(rid, RelVar(val, timestamp, revision), alloc, maxLinear);
    }

    /** `SetVar` on a value that is not empty. */
    method StoreVar(rid: RelationId, e: RelVar, alloc: AllocationType, maxLinear: UInt32) returns (handle: VarId)
      requires Valid() && e.value != []
      modifies this
      ensures Valid()
      ensures Value() == Apply(old(Value()), SetVariable(rid, e, alloc, maxLinear))
      ensures handle != VAR_NOT_SET <==> alloc.Linear?
      ensures handle != VAR_NOT_SET ==> handle < |relVar| && relVar[handle].relationId == rid
    {
      hide Put, Pos, Allocate, Ascending, Elems;
      var pos := FindRelationPos(rid);
      StoreListing(relVar, relVarSort, pos, RelVarImpl(rid, true, []));
      var had := [];
      if pos < |relVarSort| && relVar[relVarSort[pos]].relationId == rid {
        had := relVar[relVarSort[pos]].elems;
        if alloc.First? && |had| == 1 {
          FirstKeeps(Value().vars, rid, e, maxLinear);
          return VAR_NOT_SET;
        }
      }
      var elems := Place(had, e, alloc, maxLinear);
      var vid := StoreAt(pos, rid, elems);
      flags := Touched(flags);
      return if alloc.Linear? then vid else VAR_NOT_SET;
    }

    /** Overwrites the variable at a position of the search, or inserts it there. */
    method StoreAt(pos: nat, rid: RelationId, elems: seq<RelVar>) returns (vid: VarId)
      requires Valid() && pos == Pos(Value().vars, rid)
      modifies `relVar, `relVarSort
      ensures Valid() && Value() == old(Value()).(vars := Put(old(Value().vars), rid, elems))
      ensures vid < |relVar| && relVar[vid].relationId == rid && vid != VAR_NOT_SET
    {
      hide Put, Pos, Ascending, Listing;
      AtMost65536(Value().vars);
      StoreListing(relVar, relVarSort, pos, RelVarImpl(rid, true, elems));
      ghost var vars := relVar;
      vid := |relVar|;
      if pos >= vid || relVar[relVarSort[pos]].relationId != rid {
        relVar := relVar + [RelVarImpl(rid, false, [])];
        relVarSort := relVarSort[..pos] + [vid] + relVarSort[pos..];
        assert relVar[vid := RelVarImpl(rid, true, elems)] == vars + [RelVarImpl(rid, true, elems)];
      } else {
        vid := relVarSort[pos];
      }
      relVar := relVar[vid := RelVarImpl(rid, true, elems)];
    }

    /** Adds an element to the variable behind a handle; a stale handle does nothing. */
    method AddLinearElement(id: VarId, val: Text, timestamp: Time, revision: Byte)
      requires Valid()
      modifies this
      ensures Valid()
      ensures id >= |old(relVar)| ==> Value() == old(Value())
      ensures id < |old(relVar)| ==>
        && id < |relVar| && relVar[id].relationId == old(relVar[id].relationId)
        && Value() == Apply(old(Value()), AddElement(old(relVar[id].relationId), RelVar(val, timestamp, revision)))
    {
      if id >= |relVar| {
        return;
      }
      hide VarIndex.AddLinear, Ascending, Listing;
      var sz := |relVar[id].elems|;
      var elems := relVar[id].elems + [BLANK];
      elems := elems[sz := RelVar(val, timestamp, revision)];
      assert elems == relVar[id].elems + [RelVar(val, timestamp, revision)];
      AddListing(relVar, relVarSort, id, RelVar(val, timestamp, revision));
      relVar := relVar[id := RelVarImpl(relVar[id].relationId, true, elems)];
      flags := Touched(flags);
    }

    // ---- Variables: queries ------------------------------------------------

    /** The element count of the entry a lookup finds, in 32 bits, and its handle if it has elements. */
    method GetVarElementCount(rid: RelationId) returns (count: UInt32, id: VarId)
      requires Valid()
      ensures CeilingElems(Value().vars, rid) == Find(ToMap(Value().vars), rid)
      ensures count == |Counted(CeilingElems(Value().vars, rid))| == |Find(ToMap(Value().vars), rid)| % 0x1_0000_0000
      ensures count > 0 ==> id < |relVar| && relVar[id].elems == CeilingElems(Value().vars, rid)
      ensures count == 0 ==> id == VAR_NOT_SET
    {
      LookupOnMap(Value().vars, rid);
      hide Sorts, Listing, Ascending, ToMap, Find, Pos;
      var vid := FindRelationId(rid);
      if vid != VAR_NOT_SET {
        var sz := |relVar[vid].elems| % 0x1_0000_0000;
        return sz, if sz == 0 then VAR_NOT_SET else vid;
      }
      return 0, VAR_NOT_SET;
    }

    method GetVarById(id: VarId, index: UInt32 := 0) returns (v: Option<RelVar>)
      requires Valid()
      ensures v == if id < |relVar| && index < |relVar[id].elems| then Some(relVar[id].elems[index]) else None
    {
      if id >= |relVar| || index >= |relVar[id].elems| {
        return None;
      }
      return Some(relVar[id].elems[index]);
    }

    method GetVar(rid: RelationId, index: UInt32 := 0) returns (v: Option<RelVar>)
      requires Valid()
      ensures var found := Find(ToMap(Value().vars), rid);
        v == if index < |found| then Some(found[index]) else None
    {
      LookupOnMap(Value().vars, rid);
      hide Sorts, Listing, Ascending, ToMap, Find, Pos;
      var vid := FindRelationId(rid);
      if vid == VAR_NOT_SET {
        return None;
      }
      v := GetVarById(vid, index);
    }

    method GetSetVar(start: nat) returns (rid: RelationId)
      requires Valid() && start <= |relVarSort|
      ensures rid == SetIdFrom(Value().vars, start)
    {
      ghost var L := Value().vars;
      hide Ascending, Pos;
      var pos := start;
      while pos < |relVarSort| && relVar[relVarSort[pos]].elems == []
        invariant start <= pos <= |relVarSort| && SetIdFrom(L, pos) == SetIdFrom(L, start)
      {
        assert L[pos] == EntryOf(relVar[relVarSort[pos]]);
        pos := pos + 1;
      }
      if pos < |relVarSort| {
        assert L[pos] == EntryOf(relVar[relVarSort[pos]]);
        return relVar[relVarSort[pos]].relationId;
      }
      return INVALID_RID;
    }

    method GetFirstSetVar() returns (rid: RelationId)
      requires Valid()
      ensures rid == FirstSetId(Value().vars)
    {
      rid := GetSetVar(0);
    }

    method GetNextSetVar(after: RelationId) returns (rid: RelationId)
      requires Valid()
      ensures rid == NextSetId(Value().vars, after)
    {
      var pos := FindRelationPos(after);
      if pos < |relVarSort| && relVar[relVarSort[pos]].relationId == after {
        pos := pos + 1;
      }
      rid := GetSetVar(pos);
    }

    // ---- Variables: modified marks -----------------------------------------

    method GetModifiedVar(start: nat) returns (rid: RelationId)
      requires Sorts(relVar, relVarSort) && start <= |relVarSort|
      ensures rid == ModifiedFrom(relVar, relVarSort, start)
    {
      var pos := start;
      while pos < |relVarSort| && !relVar[relVarSort[pos]].modified
        invariant start <= pos <= |relVarSort|
        invariant ModifiedFrom(relVar, relVarSort, pos) == ModifiedFrom(relVar, relVarSort, start)
      {
        pos := pos + 1;
      }
      return if pos < |relVarSort| then relVar[relVarSort[pos]].relationId else INVALID_RID;
    }

    /** Meant to answer the first id changed since the last save, it answers the first one there is. */
    method GetFirstModifiedVar() returns (rid: RelationId)
      requires Valid()
      ensures rid == IndexedFrom(Value().vars, 0)
      ensures rid == INVALID_RID <==> forall r: RelationId | r < INVALID_RID :: r !in ToMap(Value().vars)
    {
      rid := GetModifiedVar(0);
      AllMarked(relVar, relVarSort, 0);
      FirstIndexedIff(Value().vars);
    }

    method GetNextModifiedVar(after: RelationId) returns (rid: RelationId)
      requires Valid()
      ensures rid == IndexedFrom(Value().vars, After(Value().vars, after))
    {
      var pos := FindRelationPos(after);
      if pos < |relVarSort| && relVar[relVarSort[pos]].relationId == after {
        pos := pos + 1;
      }
      rid := GetModifiedVar(pos);
      AllMarked(relVar, relVarSort, pos);
    }
  }

  // ---- operator == ---------------------------------------------------------

  /** The position of the id that `GetSetVar` finds. */
  lemma {:induction false} SetIdFromFinds(L: seq<Entry>, pos: nat) returns (q: nat)
    requires Ascending(L) && pos <= |L|
    ensures pos <= q <= |L| && forall i | pos <= i < q :: !Exposed(L[i])
    ensures var r := SetIdFrom(L, pos);
      if r == INVALID_RID then q == |L| else q < |L| && L[q].id == r && Exposed(L[q]) && Pos(L, r) == q
    decreases |L| - pos
  {
    if pos == |L| {
      q := pos;
    } else if L[pos].elems == [] {
      q := SetIdFromFinds(L, pos + 1);
    } else if L[pos].id == INVALID_RID {
      IdGap(L, pos, |L| - 1);
      q := |L|;
    } else {
      PosUnique(L, L[pos].id, pos);
      q := pos;
    }
  }

  method SamePurchaseIds(a: VCookie, b: VCookie) returns (same: bool)
    requires |a.purchaseIds| == |b.purchaseIds|
    ensures same <==> a.purchaseIds == b.purchaseIds
  {
    for i := 0 to |a.purchaseIds|
      invariant a.purchaseIds[..i] == b.purchaseIds[..i]
    {
      if a.purchaseIds[i] != b.purchaseIds[i] {
        return false;
      }
    }
    return true;
  }

  /** The first `count` elements behind two handles. */
  method SameElements(a: VCookie, av: VarId, b: VCookie, bv: VarId, count: UInt32) returns (same: bool)
    requires a.Valid() && b.Valid()
    requires count > 0 ==> av < |a.relVar| && bv < |b.relVar|
    requires count > 0 ==> count <= |a.relVar[av].elems| && count <= |b.relVar[bv].elems|
    ensures same <==> (count > 0 ==> a.relVar[av].elems[..count] == b.relVar[bv].elems[..count])
  {
    for i := 0 to count
      invariant count > 0 ==> a.relVar[av].elems[..i] == b.relVar[bv].elems[..i]
    {
      var x := a.GetVarById(av, i);
      var y := b.GetVarById(bv, i);
      if || x.value.value != y.value.value
         || x.value.timestamp != y.value.timestamp
         || x.value.revision != y.value.revision {
        assert a.relVar[av].elems[..count][i] != b.relVar[bv].elems[..count][i];
        return false;
      }
      assert x == y;
    }
    return true;
  }

  /** Compares what lookups of two ids find. */
  method SameVar(a: VCookie, ar: RelationId, b: VCookie, br: RelationId) returns (same: bool)
    requires a.Valid() && b.Valid()
    ensures same <==> Counted(CeilingElems(a.Value().vars, ar)) == Counted(CeilingElems(b.Value().vars, br))
  {
    hide Sorts, Listing, CeilingElems;
    var ac, av := a.GetVarElementCount(ar);
    var bc, bv := b.GetVarElementCount(br);
    if ac != bc {
      return false;
    }
    same := SameElements(a, av, b, bv, ac);
  }

  /** Walks the set variables of `a`, for both cookies, looking each one up in `b`. */
  method SameVars(a: VCookie, b: VCookie) returns (same: bool)
    requires a.Valid() && b.Valid()
    ensures same <==> (&& FirstSetId(a.Value().vars) == FirstSetId(b.Value().vars)
                       && forall e | e in SetEntries(a.Value().vars) :: FoundIn(e, b.Value().vars))
  {
    hide Sorts, Listing, Ascending, SetIdFrom, Counted, Pos, SetEntries;
    ghost var A, B := a.Value().vars, b.Value().vars;
    SetEntriesAre(A);
    var ar := a.GetFirstSetVar();
    var br := b.GetFirstSetVar();
    if ar != br {
      return false;
    }
    ghost var p: nat := 0;
    while ar != INVALID_RID
      invariant p <= |A| && ar == br == SetIdFrom(A, p)
      invariant forall i | 0 <= i < p && Exposed(A[i]) :: FoundIn(A[i], B)
      decreases |A| - p
    {
      ghost var q := SetIdFromFinds(A, p);
      var same := SameVar(a, ar, b, br);
      assert same <==> FoundIn(A[q], B);
      if !same {
        assert A[q] in SetEntries(A);
        return false;
      }
      ar := a.GetNextSetVar(ar);
      br := a.GetNextSetVar(br);  // the source asks `a` here, not `b`
      p := q + 1;
      if ar != br {
        assert false;
      }
    }
    ghost var q := SetIdFromFinds(A, p);
    return true;
  }

  method Equal(a: VCookie, b: VCookie) returns (equal: bool)
    requires a.Valid() && b.Valid()
    ensures equal <==> Equals(a.Value(), b.Value())
  {
    hide Sorts, Listing;
    if a.key != b.key {
      return false;
    }
    if || a.lastHitTimeGMT != b.lastHitTimeGMT
       || a.firstHitTimeGMT != b.firstHitTimeGMT
       || a.lastVisitNum != b.lastVisitNum {
      return false;
    }
    if || a.firstHitReferrer != b.firstHitReferrer
       || a.firstHitPageUrl != b.firstHitPageUrl
       || a.firstHitPagename != b.firstHitPagename
       || a.lastPurchaseNum != b.lastPurchaseNum
       || |a.purchaseIds| != |b.purchaseIds| {
      return false;
    }
    if a.merchandising != b.merchandising {
      return false;
    }
    var ids := SamePurchaseIds(a, b);
    if !ids {
      return false;
    }
    equal := SameVars(a, b);
  }
}
