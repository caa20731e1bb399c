/**
 What the variable operations guarantee: enumeration order, sliding windows, the reach of
 a clear, and the meaning of whole histories of operations as a map.
 */
module VarProperties {
  import opened Bytes
  import opened VarIndex

  // ---- Enumeration ---------------------------------------------------------

  /** The entries that a cookie exposes: set, and not filed under the id that means "none". */
  function SetEntries(L: seq<Entry>): (S: seq<Entry>) {
    if L == [] then []
    else if Exposed(L[0]) then [L[0]] + SetEntries(L[1..])
    else SetEntries(L[1..])
  }

  predicate Exposed(e: Entry) { e.elems != [] && e.id != INVALID_RID }

  lemma {:induction false} SetEntriesAre(L: seq<Entry>)
    ensures forall e :: e in SetEntries(L) <==> e in L && Exposed(e)
  {
    if L != [] {
      SetEntriesAre(L[1..]);
      assert forall e :: e in L <==> e == L[0] || e in L[1..];
    }
  }

  /** The ids of the exposed entries, ascending. */
  function SetIds(L: seq<Entry>): (ids: seq<RelationId>) {
    var S := SetEntries(L);
    seq(|S|, i requires 0 <= i < |S| => S[i].id)
  }

  lemma SetIdsStep(L: seq<Entry>)
    requires L != []
    ensures SetIds(L) == if Exposed(L[0]) then [L[0].id] + SetIds(L[1..]) else SetIds(L[1..])
  {
  }

  /** `GetSetVar`: the id of the first set entry at or after a position. */
  function SetIdFrom(L: seq<Entry>, pos: nat): (r: RelationId)
    requires pos <= |L|
    ensures r == INVALID_RID || exists i :: pos <= i < |L| && L[i].id == r
    decreases |L| - pos
  {
    if pos == |L| then INVALID_RID
    else if L[pos].elems == [] then SetIdFrom(L, pos + 1)
    else L[pos].id
  }

  /** The position right after `rid`, whether or not `rid` is indexed. */
  function After(L: seq<Entry>, rid: RelationId): (p: nat)
    ensures p <= |L|
    ensures Ascending(L) ==> forall i | p <= i < |L| :: L[i].id > rid
    ensures Ascending(L) ==> forall i | 0 <= i < p :: L[i].id <= rid
  {
    if Indexed(L, rid) then Pos(L, rid) + 1 else Pos(L, rid)
  }

  function FirstSetId(L: seq<Entry>): RelationId { SetIdFrom(L, 0) }

  function NextSetId(L: seq<Entry>, rid: RelationId): RelationId { SetIdFrom(L, After(L, rid)) }

  /** The ids a caller sees who starts at `rid` and asks for the next one until there is none. */
  ghost function Walk(L: seq<Entry>, rid: RelationId): seq<RelationId>
    requires Ascending(L)
    decreases INVALID_RID - rid
  {
    if rid == INVALID_RID then [] else [rid] + Walk(L, NextSetId(L, rid))
  }

  lemma {:induction false} WalkFrom(L: seq<Entry>, pos: nat)
    requires Ascending(L) && pos <= |L|
    ensures Walk(L, SetIdFrom(L, pos)) == SetIds(L[pos..])
    decreases |L| - pos
  {
    if pos < |L| {
      var T := L[pos..];
      assert T[0] == L[pos] && T[1..] == L[pos + 1..];
      SetIdsStep(T);
      if L[pos].elems == [] {
        WalkFrom(L, pos + 1);
      } else if L[pos].id == INVALID_RID {
        IdGap(L, pos, |L| - 1);
        assert T[1..] == [];
      } else {
        PosUnique(L, L[pos].id, pos);
        assert NextSetId(L, L[pos].id) == SetIdFrom(L, pos + 1);
        WalkFrom(L, pos + 1);
      }
    }
  }

  lemma {:induction false} SetEntriesAscend(L: seq<Entry>)
    requires Ascending(L)
    ensures Ascending(SetEntries(L))
  {
    if L != [] {
      var T := SetEntries(L[1..]);
      SetEntriesAscend(L[1..]);
      SetEntriesAre(L[1..]);
      forall i | 0 <= i < |T|
        ensures L[0].id < T[i].id
      {
        assert T[i] in L[1..];
      }
    }
  }

  lemma SetIdsAre(L: seq<Entry>)
    requires Ascending(L)
    ensures forall i, j | 0 <= i < j < |SetIds(L)| :: SetIds(L)[i] < SetIds(L)[j]
    ensures forall r :: r in SetIds(L) <==> exists i :: 0 <= i < |L| && L[i].id == r && Exposed(L[i])
  {
    var S := SetEntries(L);
    SetEntriesAscend(L);
    SetEntriesAre(L);
    forall r
      ensures r in SetIds(L) <==> exists i :: 0 <= i < |L| && L[i].id == r && Exposed(L[i])
    {
      if r in SetIds(L) {
        var k :| 0 <= k < |S| && S[k].id == r;
        assert S[k] in S;
      }
      if i :| 0 <= i < |L| && L[i].id == r && Exposed(L[i]) {
        assert L[i] in S;
        var k :| 0 <= k < |S| && S[k] == L[i];
        assert SetIds(L)[k] == r;
      }
    }
  }

  /**
   Enumeration from the first set variable yields exactly the set ids below 65535, each
   once, in ascending order, then the invalid id; resumed from any id, indexed or not, it
   yields exactly those above it.
   */
  lemma {:induction false} EnumerationIsComplete(L: seq<Entry>, rid: RelationId)
    requires Ascending(L)
    ensures var all := Walk(L, FirstSetId(L));
      && (forall i, j | 0 <= i < j < |all| :: all[i] < all[j])
      && (forall r: RelationId :: r in all <==> r != INVALID_RID && Elems(L, r) != [])
    ensures var rest := Walk(L, NextSetId(L, rid));
      && (forall i, j | 0 <= i < j < |rest| :: rest[i] < rest[j])
      && (forall r: RelationId :: r in rest <==> rid < r != INVALID_RID && Elems(L, r) != [])
  {
    var p := After(L, rid);
    WalkFrom(L, 0);
    WalkFrom(L, p);
    assert L[0..] == L;
    SetIdsAre(L);
    SetIdsAre(L[p..]);
    forall r: RelationId
      ensures r in SetIds(L) <==> r != INVALID_RID && Elems(L, r) != []
      ensures r in SetIds(L[p..]) <==> rid < r != INVALID_RID && Elems(L, r) != []
    {
      SetIdOfSuffix(L, 0, r);
      SetIdOfSuffix(L, p, r);
    }
  }

  lemma {:induction false} SetIdOfSuffix(L: seq<Entry>, p: nat, r: RelationId)
    requires Ascending(L) && p <= |L|
    ensures (exists i :: 0 <= i < |L[p..]| && L[p..][i].id == r && Exposed(L[p..][i]))
       <==> p <= Pos(L, r) && r != INVALID_RID && Elems(L, r) != []
  {
    var T, q := L[p..], Pos(L, r);
    if p <= q && r != INVALID_RID && Elems(L, r) != [] {
      assert T[q - p] == L[q];
    } else if i :| 0 <= i < |T| && T[i].id == r && Exposed(T[i]) {
      PosUnique(L, r, p + i);
    }
  }

  // ---- Allocation ----------------------------------------------------------

  /** The last `maxLinear` elements, or all of them when there is no limit. */
  function Window(all: seq<RelVar>, maxLinear: UInt32): seq<RelVar> {
    if maxLinear == 0 || |all| <= maxLinear then all else all[|all| - maxLinear..]
  }

  /** One LINEAR allocation is one step of a sliding window, as long as the 32-bit index does not wrap. */
  lemma LinearIsWindow(all: seq<RelVar>, kept: seq<RelVar>, e: RelVar, maxLinear: UInt32)
    requires maxLinear != 0 || |all| < U32
    requires kept == all || kept == Window(all, maxLinear)
    ensures Allocate(kept, e, Linear, maxLinear) == Window(all + [e], maxLinear)
  {
    var room := Room(kept, maxLinear);
    assert (room + [BLANK])[|room| := e] == room + [e];
  }

  /** At 2^32 elements the index wraps: the new one lands on the first, and an empty one is added. */
  lemma LinearWraps(kept: seq<RelVar>, e: RelVar)
    requires |kept| == 0x1_0000_0000
    ensures Allocate(kept, e, Linear, 0) == [e] + kept[1..] + [RelVar([], 0, 0)]
  {
  }

  /** A run of LINEAR assignments of the given elements to one variable. */
  ghost function SetAll(L: seq<Entry>, rid: RelationId, es: seq<RelVar>, maxLinear: UInt32): seq<Entry> {
    if es == [] then L
    else SetVar(SetAll(L, rid, es[..|es| - 1], maxLinear), rid, es[|es| - 1], Linear, maxLinear)
  }

  /**
   After any run of LINEAR assignments the variable holds the last `maxLinear` of everything
   it was ever given (everything, when there is no limit), and no other variable has changed.
   */
  lemma {:induction false} LinearRun(L: seq<Entry>, rid: RelationId, es: seq<RelVar>, maxLinear: UInt32)
    requires Ascending(L) && es != []
    requires forall i | 0 <= i < |es| :: es[i].value != []
    requires maxLinear != 0 || |Elems(L, rid)| + |es| <= U32
    ensures var M := SetAll(L, rid, es, maxLinear);
      Ascending(M) && ToMap(M) == ToMap(L)[rid := Window(Elems(L, rid) + es, maxLinear)]
  {
    var n, had := |es| - 1, Elems(L, rid);
    var before := SetAll(L, rid, es[..n], maxLinear);
    if n > 0 {
      LinearRun(L, rid, es[..n], maxLinear);
      ToMapElems(before, rid);
    } else {
      assert had + es[..n] == had;
    }
    LinearRunStep(L, before, rid, had + es[..n], es[n], maxLinear);
    SplitLast(had, es);
  }

  lemma {:induction false} LinearRunStep(L: seq<Entry>, before: seq<Entry>, rid: RelationId, all: seq<RelVar>,
                                         e: RelVar, maxLinear: UInt32)
    requires Ascending(L) && Ascending(before) && e.value != []
    requires maxLinear != 0 || |all| < U32
    requires Elems(before, rid) == all || Elems(before, rid) == Window(all, maxLinear)
    requires before == L || ToMap(before) == ToMap(L)[rid := Elems(before, rid)]
    ensures var M := SetVar(before, rid, e, Linear, maxLinear);
      Ascending(M) && ToMap(M) == ToMap(L)[rid := Window(all + [e], maxLinear)]
  {
    LinearIsWindow(all, Elems(before, rid), e, maxLinear);
    PutMap(before, rid, Window(all + [e], maxLinear));
  }

  lemma SplitLast<T>(s: seq<T>, t: seq<T>)
    requires t != []
    ensures s + t[..|t| - 1] + [t[|t| - 1]] == s + t
  {
  }

  /** LAST leaves just the new element; FIRST keeps a lone element and otherwise leaves just the new one. */
  lemma {:induction false} LastAndFirst(L: seq<Entry>, rid: RelationId, e: RelVar, maxLinear: UInt32)
    requires Ascending(L) && e.value != []
    ensures var M := SetVar(L, rid, e, Last, maxLinear);
      Ascending(M) && ToMap(M) == ToMap(L)[rid := [e]]
    ensures var M := SetVar(L, rid, e, First, maxLinear);
      Ascending(M) && if |Elems(L, rid)| == 1 then M == L else ToMap(M) == ToMap(L)[rid := [e]]
  {
    PutMap(L, rid, [e]);
  }

  // ---- The reach of a clear ------------------------------------------------

  lemma {:induction false} ClearMap(L: seq<Entry>, rid: RelationId)
    requires Ascending(L)
    ensures Ascending(Clear(L, rid))
    ensures var p := Pos(L, rid);
      ToMap(Clear(L, rid)) == if p < |L| then ToMap(L)[L[p].id := []] else ToMap(L)
  {
    var p := Pos(L, rid);
    if p < |L| {
      PosUnique(L, L[p].id, p);
      PutMap(L, L[p].id, []);
    }
  }

  /**
   `ClearVar(rid)` means to empty `rid` and nothing else. It does so exactly when `rid` is
   indexed, or no higher id is, or the next higher indexed one is empty already; in every
   other case it wipes out that next higher variable.
   */
  lemma ClearReachesOnlyItsOwn(L: seq<Entry>, rid: RelationId)
    requires Ascending(L)
    ensures (forall k: RelationId :: Elems(Clear(L, rid), k) == if k == rid then [] else Elems(L, k))
       <==> Indexed(L, rid) || CeilingElems(L, rid) == []
  {
    ClearMap(L, rid);
    forall k: RelationId
      ensures var p := Pos(L, rid);
        Elems(Clear(L, rid), k) == if p < |L| && k == L[p].id then [] else Elems(L, k)
    {
      ToMapElems(L, k);
      ToMapElems(Clear(L, rid), k);
    }
    var p := Pos(L, rid);
    if p < |L| {
      PosUnique(L, L[p].id, p);
      assert Elems(L, L[p].id) == L[p].elems;
    }
  }

  /** Clearing an id that was never set can wipe out another variable. */
  lemma ClearCanHitANeighbour()
    ensures exists L, rid, k :: Ascending(L) && !Indexed(L, rid) && k != rid
                             && Elems(L, k) != [] && Elems(Clear(L, rid), k) == []
  {
    var L := [Entry(5, [RelVar([1], 0, 0)])];
    assert Pos(L, 3) == 0 && Pos(L, 5) == 0;
    assert Clear(L, 3) == [Entry(5, [])];
    assert Pos(Clear(L, 3), 5) == 0;
    assert Ascending(L) && !Indexed(L, 3) && Elems(L, 5) != [] && Elems(Clear(L, 3), 5) == [];
  }

  // ---- Whole histories -----------------------------------------------------

  datatype VarOp =
    | Set(rid: RelationId, e: RelVar, alloc: AllocationType, maxLinear: UInt32)
    | Cleared(rid: RelationId)
    | Added(rid: RelationId, e: RelVar)
    | ResetAll

  function Step(L: seq<Entry>, op: VarOp): seq<Entry> {
    match op
    case Set(rid, e, alloc, maxLinear) => SetVar(L, rid, e, alloc, maxLinear)
    case Cleared(rid) => Clear(L, rid)
    case Added(rid, e) => if Indexed(L, rid) then AddLinear(L, rid, e) else L
    case ResetAll => []
  }

  function History(ops: seq<VarOp>): seq<Entry> {
    if ops == [] then [] else Step(History(ops[..|ops| - 1]), ops[|ops| - 1])
  }

  // The reference: the same operations on a map, where order plays no part.

  ghost function Get(m: map<RelationId, seq<RelVar>>, rid: RelationId): seq<RelVar> {
    if rid in m then m[rid] else []
  }

  ghost predicate IsCeiling(m: map<RelationId, seq<RelVar>>, rid: RelationId, k: RelationId) {
    k in m && rid <= k && forall j | j in m && rid <= j :: k <= j
  }

  ghost function MapClear(m: map<RelationId, seq<RelVar>>, rid: RelationId): map<RelationId, seq<RelVar>> {
    if k: RelationId :| IsCeiling(m, rid, k) then m[k := []] else m
  }

  ghost function MapStep(m: map<RelationId, seq<RelVar>>, op: VarOp): map<RelationId, seq<RelVar>> {
    match op
    case Set(rid, e, alloc, maxLinear) =>
      if e.value != [] then m[rid := Allocate(Get(m, rid), e, alloc, maxLinear)]
      else if alloc.Last? then MapClear(m, rid) else m
    case Cleared(rid) => MapClear(m, rid)
    case Added(rid, e) => if rid in m then m[rid := m[rid] + [e]] else m
    case ResetAll => map[]
  }

  ghost function MapHistory(ops: seq<VarOp>): map<RelationId, seq<RelVar>> {
    if ops == [] then map[] else MapStep(MapHistory(ops[..|ops| - 1]), ops[|ops| - 1])
  }

  lemma {:induction false} CeilingIs(L: seq<Entry>, rid: RelationId, k: RelationId)
    requires Ascending(L)
    ensures IsCeiling(ToMap(L), rid, k) <==> Pos(L, rid) < |L| && L[Pos(L, rid)].id == k
  {
    var p := Pos(L, rid);
    if p < |L| {
      ToMapElems(L, L[p].id);
      PosUnique(L, L[p].id, p);
    }
    forall j | j in ToMap(L) && rid <= j
      ensures p < |L| && L[p].id <= j
    {
      ToMapElems(L, j);
    }
  }

  lemma {:induction false} ClearRefines(L: seq<Entry>, rid: RelationId)
    requires Ascending(L)
    ensures Ascending(Clear(L, rid)) && ToMap(Clear(L, rid)) == MapClear(ToMap(L), rid)
  {
    ClearMap(L, rid);
    if Pos(L, rid) < |L| {
      CeilingIs(L, rid, L[Pos(L, rid)].id);
    }
    forall k: RelationId
      ensures IsCeiling(ToMap(L), rid, k) <==> Pos(L, rid) < |L| && L[Pos(L, rid)].id == k
    {
      CeilingIs(L, rid, k);
    }
  }

  lemma {:induction false} StepRefines(L: seq<Entry>, op: VarOp)
    requires Ascending(L)
    ensures Ascending(Step(L, op)) && ToMap(Step(L, op)) == MapStep(ToMap(L), op)
  {
    match op
    case Set(rid, e, alloc, maxLinear) =>
      if e.value != [] {
        ToMapElems(L, rid);
        var now := Allocate(Elems(L, rid), e, alloc, maxLinear);
        PutMap(L, rid, now);
        assert Step(L, op) == Put(L, rid, now) && MapStep(ToMap(L), op) == ToMap(L)[rid := now];
      } else if alloc.Last? {
        ClearRefines(L, rid);
        assert Step(L, op) == Clear(L, rid) && MapStep(ToMap(L), op) == MapClear(ToMap(L), rid);
      }
    case Cleared(rid) =>
      ClearRefines(L, rid);
    case Added(rid, e) =>
      ToMapElems(L, rid);
      PutMap(L, rid, Elems(L, rid) + [e]);
    case ResetAll =>
  }

  /**
   Any history of SetVar, ClearVar, AddLinearElement and Reset keeps the list sorted without
   duplicates and means what the same history means on a map.
   */
  lemma {:induction false} HistoryRefinesMap(ops: seq<VarOp>)
    ensures Ascending(History(ops)) && ToMap(History(ops)) == MapHistory(ops)
  {
    if ops != [] {
      HistoryRefinesMap(ops[..|ops| - 1]);
      StepRefines(History(ops[..|ops| - 1]), ops[|ops| - 1]);
    }
  }

  /** Two histories with the same meaning end in the very same list, whatever their order of insertion. */
  lemma {:induction false} SameMeaningSameList(ops: seq<VarOp>, ops': seq<VarOp>)
    requires MapHistory(ops) == MapHistory(ops')
    ensures History(ops) == History(ops')
  {
    HistoryRefinesMap(ops);
    HistoryRefinesMap(ops');
    ListOfMap(History(ops), History(ops'));
  }
}
