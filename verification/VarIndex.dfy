/**
 The relation variables of a visitor cookie as their owner sees them: a list of
 (relation id, elements) entries in ascending order of id. A cleared variable keeps its
 entry, with no elements. `VCookie` stores this list as `relVar` (in order of insertion)
 and `relVarSort` (the sorting permutation); see module VCookies for that refinement.
 */
module VarIndex {
  import opened Bytes

  type RelationId = UInt16
  const INVALID_RID: RelationId := 0xFFFF

  datatype RelVar = RelVar(value: Text, timestamp: Time, revision: Byte)
  const BLANK := RelVar([], 0, 0)

  datatype AllocationType = Last | First | Linear
  const MAX_LINEAR_NOT_SET: UInt32 := 0xFFFF_FFFF
  const MAX_LINEAR_INFINITE: UInt32 := 0

  datatype Entry = Entry(id: RelationId, elems: seq<RelVar>)

  ghost predicate Ascending(L: seq<Entry>) {
    forall i, j | 0 <= i < j < |L| :: L[i].id < L[j].id
  }

  // ---- Search --------------------------------------------------------------

  /** The least position whose id is not below `rid`. */
  function Pos(L: seq<Entry>, rid: RelationId): (p: nat)
    ensures p <= |L|
    ensures forall i | 0 <= i < p :: L[i].id < rid
    ensures p < |L| ==> L[p].id >= rid
  {
    if L == [] || L[0].id >= rid then 0 else 1 + Pos(L[1..], rid)
  }

  predicate Indexed(L: seq<Entry>, rid: RelationId) {
    Pos(L, rid) < |L| && L[Pos(L, rid)].id == rid
  }

  /** The elements of `rid` itself. */
  function Elems(L: seq<Entry>, rid: RelationId): seq<RelVar> {
    if Indexed(L, rid) then L[Pos(L, rid)].elems else []
  }

  /** What a lookup of `rid` really finds: the elements of the least indexed id that is not below it. */
  function CeilingElems(L: seq<Entry>, rid: RelationId): seq<RelVar> {
    if Pos(L, rid) < |L| then L[Pos(L, rid)].elems else []
  }

  lemma {:induction false} PosUnique(L: seq<Entry>, rid: RelationId, p: nat)
    requires Ascending(L) && p <= |L|
    requires p > 0 ==> L[p - 1].id < rid
    requires p < |L| ==> L[p].id >= rid
    ensures Pos(L, rid) == p
  {
  }

  lemma {:induction false} IdGap(L: seq<Entry>, i: nat, j: nat)
    requires Ascending(L) && i <= j < |L|
    ensures j - i <= L[j].id - L[i].id
  {
    if i < j {
      IdGap(L, i, j - 1);
    }
  }

  /** An ascending list of 16-bit ids is short, so `low + high` in the binary search cannot wrap. */
  lemma AtMost65536(L: seq<Entry>)
    requires Ascending(L)
    ensures |L| <= 0x1_0000
  {
    if |L| > 0 {
      IdGap(L, 0, |L| - 1);
    }
  }

  // ---- Update --------------------------------------------------------------

  /** Replaces the elements of `rid`, inserting an entry at its sorted place if there is none. */
  function Put(L: seq<Entry>, rid: RelationId, elems: seq<RelVar>): seq<Entry> {
    var p := Pos(L, rid);
    if Indexed(L, rid) then L[p := Entry(rid, elems)]
    else L[..p] + [Entry(rid, elems)] + L[p..]
  }

  /** The elements an id has after a non-empty value was allocated to it. */
  function Allocate(elems: seq<RelVar>, e: RelVar, alloc: AllocationType, maxLinear: UInt32): seq<RelVar> {
    match alloc
    case Last => [e]
    case First => if |elems| == 1 then elems else [e]
    case Linear => Append(Room(elems, maxLinear), e)
  }

  /** What is kept of a linear variable to make room for one more element. */
  function Room(elems: seq<RelVar>, maxLinear: UInt32): seq<RelVar> {
    if maxLinear == MAX_LINEAR_INFINITE || |elems| < maxLinear then elems
    else elems[|elems| - (maxLinear - 1)..]
  }

  /** One slot more, written at an index that is truncated to 32 bits. */
  function Append(elems: seq<RelVar>, e: RelVar): seq<RelVar> {
    (elems + [BLANK])[|elems| % 0x1_0000_0000 := e]
  }

  /** `ClearVar`: empties the entry that the lookup of `rid` finds. */
  function Clear(L: seq<Entry>, rid: RelationId): seq<Entry> {
    var p := Pos(L, rid);
    if p < |L| then L[p := Entry(L[p].id, [])] else L
  }

  /** `SetVar`, as far as the variables go. */
  function SetVar(L: seq<Entry>, rid: RelationId, e: RelVar, alloc: AllocationType, maxLinear: UInt32): seq<Entry> {
    if e.value == [] then
      if alloc.Last? then Clear(L, rid) else L
    else
      Put(L, rid, Allocate(Elems(L, rid), e, alloc, maxLinear))
  }

  /** `AddLinearElement` on the variable whose id is `rid`. */
  function AddLinear(L: seq<Entry>, rid: RelationId, e: RelVar): seq<Entry> {
    Put(L, rid, Elems(L, rid) + [e])
  }

  lemma PutAscending(L: seq<Entry>, rid: RelationId, elems: seq<RelVar>)
    requires Ascending(L)
    ensures Ascending(Put(L, rid, elems))
    ensures Indexed(Put(L, rid, elems), rid) && Elems(Put(L, rid, elems), rid) == elems
  {
    var p := Pos(L, rid);
    PosUnique(Put(L, rid, elems), rid, p);
  }

  // ---- The list as a map ---------------------------------------------------

  function ToMap(L: seq<Entry>): map<RelationId, seq<RelVar>> {
    if L == [] then map[] else ToMap(L[1..])[L[0].id := L[0].elems]
  }

  lemma {:induction false} ToMapElems(L: seq<Entry>, rid: RelationId)
    requires Ascending(L)
    ensures rid in ToMap(L) <==> Indexed(L, rid)
    ensures rid in ToMap(L) ==> ToMap(L)[rid] == Elems(L, rid)
  {
    if L != [] {
      ToMapElems(L[1..], rid);
      if L[0].id > rid && |L| > 1 {
        PosUnique(L[1..], rid, 0);
      }
    }
  }

  lemma PutElems(L: seq<Entry>, rid: RelationId, elems: seq<RelVar>, k: RelationId)
    requires Ascending(L) && Ascending(Put(L, rid, elems)) && k != rid
    ensures Indexed(Put(L, rid, elems), k) <==> Indexed(L, k)
    ensures Elems(Put(L, rid, elems), k) == Elems(L, k)
  {
    var M, p, q := Put(L, rid, elems), Pos(L, rid), Pos(L, k);
    var shift := if k < rid || Indexed(L, rid) then 0 else 1;
    assert k < rid ==> q <= p;
    assert q < |L| && q != p ==> M[q + shift] == L[q];
    PosUnique(M, k, q + shift);
  }

  /** `Put` changes the map at its own id and nowhere else, although insertion shifts the entries after it. */
  lemma {:induction false} PutMap(L: seq<Entry>, rid: RelationId, elems: seq<RelVar>)
    requires Ascending(L)
    ensures Ascending(Put(L, rid, elems))
    ensures ToMap(Put(L, rid, elems)) == ToMap(L)[rid := elems]
  {
    PutAscending(L, rid, elems);
    var M := Put(L, rid, elems);
    forall k: RelationId
      ensures k in ToMap(M) <==> k in ToMap(L)[rid := elems]
      ensures k in ToMap(M) ==> ToMap(M)[k] == ToMap(L)[rid := elems][k]
    {
      ToMapElems(L, k);
      ToMapElems(M, k);
      if k != rid { PutElems(L, rid, elems, k); }
    }
  }

  /** The list is determined by the map: how it was built up leaves no trace. */
  lemma {:induction false} ListOfMap(L: seq<Entry>, M: seq<Entry>)
    requires Ascending(L) && Ascending(M) && ToMap(L) == ToMap(M)
    ensures L == M
  {
    if |L| > 0 || |M| > 0 {
      HeadOfMap(L, M);
      HeadOfMap(M, L);
      TailMap(L);
      TailMap(M);
      ListOfMap(L[1..], M[1..]);
      assert L == [L[0]] + L[1..] && M == [M[0]] + M[1..];
    }
  }

  lemma {:induction false} HeadOfMap(L: seq<Entry>, M: seq<Entry>)
    requires Ascending(L) && Ascending(M) && ToMap(L) == ToMap(M)
    ensures |L| > 0 ==> |M| > 0 && M[0].id <= L[0].id && (M[0].id == L[0].id ==> M[0] == L[0])
  {
    if |L| > 0 {
      ToMapElems(L, L[0].id);
      ToMapElems(M, L[0].id);
    }
  }

  lemma {:induction false} TailMap(L: seq<Entry>)
    requires Ascending(L) && L != []
    ensures Ascending(L[1..]) && ToMap(L[1..]) == ToMap(L) - {L[0].id}
  {
    ToMapElems(L[1..], L[0].id);
    if |L| > 1 {
      PosUnique(L[1..], L[0].id, 0);
    }
  }
}
