/**
 What point lookups (`GetVar`, `GetVarElementCount`) and the enumeration of modified variables
 tell. A lookup answers for the least indexed id that is not below the one asked for, so what
 it says depends also on cleared variables, which the enumeration of set ones passes over.
 */
module Lookups {
  import opened VarIndex
  import opened VarProperties

  // ---- On the map ----------------------------------------------------------

  /** What a lookup finds, on a map: the elements of the least key that is not below `rid`. */
  ghost function Find(m: map<RelationId, seq<RelVar>>, rid: RelationId): seq<RelVar> {
    if k: RelationId :| IsCeiling(m, rid, k) then m[k] else []
  }

  lemma {:induction false} LookupOnMap(L: seq<Entry>, rid: RelationId)
    requires Ascending(L)
    ensures CeilingElems(L, rid) == Find(ToMap(L), rid) && Elems(L, rid) == Get(ToMap(L), rid)
  {
    var p := Pos(L, rid);
    ToMapElems(L, rid);
    if p < |L| {
      CeilingIs(L, rid, L[p].id);
      ToMapElems(L, L[p].id);
      PosUnique(L, L[p].id, p);
    }
    forall k: RelationId
      ensures IsCeiling(ToMap(L), rid, k) ==> p < |L| && L[p].id == k
    {
      CeilingIs(L, rid, k);
    }
  }

  /**
   A lookup is meant to answer for `rid` and nothing else. It does exactly when `rid` has an
   entry, or no higher id has one, or the next higher one that has is cleared.
   */
  lemma {:induction false} LookupFindsItsOwnIff(L: seq<Entry>, rid: RelationId)
    requires Ascending(L)
    ensures var m := ToMap(L);
      CeilingElems(L, rid) == Get(m, rid)
      <==> rid in m || forall k: RelationId | IsCeiling(m, rid, k) :: m[k] == []
  {
    LookupOnMap(L, rid);
  }

  /** An id that was never set answers with the elements of its neighbour. */
  lemma LookupCanFindANeighbour()
    ensures exists L, rid :: Ascending(L) && Get(ToMap(L), rid) == [] && CeilingElems(L, rid) != []
  {
    var L := [Entry(5, [RelVar([1], 0, 0)])];
    ToMapElems(L, 3);
    assert Ascending(L) && Get(ToMap(L), 3) == [] && CeilingElems(L, 3) != [];
  }

  // ---- Enumeration of the whole index --------------------------------------

  /** The id at a position of the index. */
  function IndexedFrom(L: seq<Entry>, pos: nat): RelationId {
    if pos < |L| then L[pos].id else INVALID_RID
  }

  lemma {:induction false} FirstIndexedIff(L: seq<Entry>)
    requires Ascending(L)
    ensures IndexedFrom(L, 0) == INVALID_RID <==> forall r: RelationId | r < INVALID_RID :: r !in ToMap(L)
  {
    if L != [] {
      PosUnique(L, L[0].id, 0);
      ToMapElems(L, L[0].id);
    }
    forall r: RelationId | r < INVALID_RID && r in ToMap(L)
      ensures IndexedFrom(L, 0) < INVALID_RID
    {
      ToMapElems(L, r);
    }
  }

  /** The ids a caller sees who starts at `rid` and asks for the next indexed one until there is none. */
  ghost function WalkIndex(L: seq<Entry>, rid: RelationId): seq<RelationId>
    requires Ascending(L)
    decreases INVALID_RID - rid
  {
    if rid == INVALID_RID then [] else [rid] + WalkIndex(L, IndexedFrom(L, After(L, rid)))
  }

  lemma {:induction false} IndexedAtOrAfter(L: seq<Entry>, pos: nat, r: RelationId)
    requires Ascending(L) && pos < |L|
    ensures pos <= Pos(L, r) && Indexed(L, r) <==> r == L[pos].id || (pos + 1 <= Pos(L, r) && Indexed(L, r))
  {
    PosUnique(L, L[pos].id, pos);
  }

  lemma {:induction false} IndexedAbove(L: seq<Entry>, pos: nat, r: RelationId)
    requires Ascending(L) && pos < Pos(L, r) && Indexed(L, r)
    ensures L[pos].id < r
  {
  }

  lemma {:induction false} WalkIndexFrom(L: seq<Entry>, pos: nat)
    requires Ascending(L) && pos <= |L|
    ensures var ids := WalkIndex(L, IndexedFrom(L, pos));
      && (forall i, j | 0 <= i < j < |ids| :: ids[i] < ids[j])
      && forall r: RelationId :: r in ids <==> r < INVALID_RID && pos <= Pos(L, r) && Indexed(L, r)
    decreases |L| - pos
  {
    if pos < |L| {
      IdGap(L, pos, |L| - 1);
      if L[pos].id < INVALID_RID {
        PosUnique(L, L[pos].id, pos);
        assert After(L, L[pos].id) == pos + 1;
        hide Pos, Indexed, After, Ascending;
        var rest := WalkIndex(L, IndexedFrom(L, pos + 1));
        WalkIndexFrom(L, pos + 1);
        assert WalkIndex(L, IndexedFrom(L, pos)) == [L[pos].id] + rest;
        forall r: RelationId
          ensures pos <= Pos(L, r) && Indexed(L, r) <==> r == L[pos].id || (pos + 1 <= Pos(L, r) && Indexed(L, r))
        {
          IndexedAtOrAfter(L, pos, r);
        }
        forall j | 0 <= j < |rest|
          ensures L[pos].id < rest[j]
        {
          assert rest[j] in rest;
          IndexedAbove(L, pos, rest[j]);
        }
      }
    }
  }

  /**
   Enumerating the modified variables gives every indexed id below 65535, each once, in
   ascending order, whether it was changed since the last save or not.
   */
  lemma {:induction false} ModifiedMeansIndexed(L: seq<Entry>)
    requires Ascending(L)
    ensures var ids := WalkIndex(L, IndexedFrom(L, 0));
      && (forall i, j | 0 <= i < j < |ids| :: ids[i] < ids[j])
      && forall r: RelationId :: r in ids <==> r < INVALID_RID && r in ToMap(L)
  {
    WalkIndexFrom(L, 0);
    forall r: RelationId
      ensures r in ToMap(L) <==> Indexed(L, r)
    {
      ToMapElems(L, r);
    }
  }

  function NextIndexed(L: seq<Entry>, rid: RelationId): RelationId { IndexedFrom(L, After(L, rid)) }

  /** The modified variables are enumerated alike: the first one, and the next one after any id. */
  ghost predicate SameModified(L: seq<Entry>, M: seq<Entry>) {
    && IndexedFrom(L, 0) == IndexedFrom(M, 0)
    && forall rid: RelationId :: NextIndexed(L, rid) == NextIndexed(M, rid)
  }

  ghost predicate SameIndexed(L: seq<Entry>, M: seq<Entry>) {
    forall r: RelationId | r < INVALID_RID :: Indexed(L, r) <==> Indexed(M, r)
  }

  lemma {:induction false} SameWalk(L: seq<Entry>, M: seq<Entry>, rid: RelationId)
    requires Ascending(L) && Ascending(M) && SameModified(L, M)
    ensures WalkIndex(L, rid) == WalkIndex(M, rid)
    decreases INVALID_RID - rid
  {
    hide Ascending, IndexedFrom;
    if rid != INVALID_RID {
      AfterIsAbove(L, rid);
      assert NextIndexed(L, rid) == NextIndexed(M, rid);
      SameWalk(L, M, NextIndexed(L, rid));
    }
  }

  lemma AfterIsAbove(L: seq<Entry>, rid: RelationId)
    requires Ascending(L) && rid < INVALID_RID
    ensures NextIndexed(L, rid) > rid
  {
  }

  /** The id at a position is the least indexed one from there on. */
  lemma IndexedFromIsLeast(L: seq<Entry>, pos: nat, M: seq<Entry>, pos': nat)
    requires Ascending(L) && Ascending(M) && SameIndexed(L, M) && pos <= |L| && pos' <= |M|
    requires forall i | pos <= i < |L| :: forall j | 0 <= j < pos' :: M[j].id < L[i].id
    ensures IndexedFrom(L, pos) >= IndexedFrom(M, pos')
  {
    if pos < |L| && L[pos].id < INVALID_RID {
      PosUnique(L, L[pos].id, pos);
      assert Indexed(M, L[pos].id);
    }
  }

  /** Enumerating the modified variables tells which ids below 65535 are indexed, and nothing else. */
  lemma SameModifiedIff(L: seq<Entry>, M: seq<Entry>)
    requires Ascending(L) && Ascending(M)
    ensures SameModified(L, M) <==> SameIndexed(L, M)
  {
    if SameModified(L, M) {
      SameWalk(L, M, IndexedFrom(L, 0));
      WalkIndexFrom(L, 0);
      WalkIndexFrom(M, 0);
    }
    if SameIndexed(L, M) {
      IndexedFromIsLeast(L, 0, M, 0);
      IndexedFromIsLeast(M, 0, L, 0);
      forall rid: RelationId
        ensures NextIndexed(L, rid) == NextIndexed(M, rid)
      {
        IndexedFromIsLeast(L, After(L, rid), M, After(M, rid));
        IndexedFromIsLeast(M, After(M, rid), L, After(L, rid));
      }
    }
  }

  // ---- Lists that no lookup tells apart ------------------------------------

  ghost predicate SameLookups(L: seq<Entry>, M: seq<Entry>) {
    forall rid: RelationId :: CeilingElems(L, rid) == CeilingElems(M, rid)
  }

  /**
   The entries that getters can tell from their absence: those with elements, and a cleared
   one if the next entry above it has elements. That one keeps lookups of its id, and of the
   ids below it, from finding its neighbour.
   */
  function Essential(L: seq<Entry>): seq<Entry> {
    if L == [] then []
    else if Shows(L) then [L[0]] + Essential(L[1..])
    else Essential(L[1..])
  }

  predicate Shows(L: seq<Entry>)
    requires L != []
  {
    L[0].elems != [] || (|L| > 1 && L[1].elems != [])
  }

  ghost predicate IsEssential(E: seq<Entry>) {
    forall i | 0 <= i < |E| :: E[i].elems != [] || (i + 1 < |E| && E[i + 1].elems != [])
  }

  /** A lookup in a list without its first entry. */
  lemma LookupInTail(L: seq<Entry>, rid: RelationId)
    requires L != []
    ensures CeilingElems(L, rid) == if L[0].id >= rid then L[0].elems else CeilingElems(L[1..], rid)
  {
  }

  lemma LookupAtHead(L: seq<Entry>, rid: RelationId)
    requires L != [] ==> L[0].id >= rid
    ensures CeilingElems(L, rid) == if L == [] then [] else L[0].elems
  {
  }

  lemma {:induction false} EssentialIs(L: seq<Entry>)
    requires Ascending(L)
    ensures var E := Essential(L);
      && Ascending(E) && IsEssential(E) && (forall e | e in E :: e in L)
      && (E != [] ==> (E[0].elems != [] <==> L[0].elems != []))
      && (L != [] && L[0].elems != [] ==> E != [] && E[0] == L[0])
  {
    if L != [] {
      var E := Essential(L[1..]);
      EssentialIs(L[1..]);
      assert forall i | 0 <= i < |E| :: E[i] in E;
      forall e | e in E
        ensures e in L && e.id > L[0].id
      {
        assert e in L[1..];
      }
      if Shows(L) { ConsEssential(L[0], E); }
    }
  }

  lemma ConsEssential(e: Entry, E: seq<Entry>)
    requires Ascending(E) && IsEssential(E) && forall i | 0 <= i < |E| :: E[i].id > e.id
    requires e.elems != [] || (E != [] && E[0].elems != [])
    ensures Ascending([e] + E) && IsEssential([e] + E)
  {
  }

  lemma {:induction false} EssentialTail(L: seq<Entry>, rid: RelationId)
    requires Ascending(L) && L != [] && CeilingElems(Essential(L[1..]), rid) == CeilingElems(L[1..], rid)
    ensures CeilingElems(Essential(L), rid) == CeilingElems(L, rid)
  {
    var E := Essential(L[1..]);
    hide CeilingElems, Ascending;
    LookupInTail(L, rid);
    if Shows(L) {
      LookupInTail([L[0]] + E, rid);
      assert ([L[0]] + E)[1..] == E;
    } else if L[0].id >= rid {
      if |L| > 1 { assert L[0].id < L[1].id by { IdGap(L, 0, 1); } }
      LookupAtHead(L[1..], rid);
    }
  }

  /** Neither a lookup nor enumeration misses the entries that are not essential. */
  lemma {:induction false} EssentialShowsAll(L: seq<Entry>)
    requires Ascending(L)
    ensures SameLookups(Essential(L), L) && SetEntries(Essential(L)) == SetEntries(L)
  {
    if L != [] {
      hide CeilingElems;
      EssentialShowsAll(L[1..]);
      forall rid: RelationId
        ensures CeilingElems(Essential(L), rid) == CeilingElems(L, rid)
      {
        EssentialTail(L, rid);
      }
      if Shows(L) { assert ([L[0]] + Essential(L[1..]))[1..] == Essential(L[1..]); }
    }
  }

  // ---- Lookups against essential entries -----------------------------------

  lemma {:induction false} HeadNotBelow(E: seq<Entry>, F: seq<Entry>)
    requires Ascending(E) && IsEssential(E) && E != []
    requires Ascending(F) && F != []
    requires SetEntries(E) == SetEntries(F) && SameLookups(E, F)
    ensures F[0].id <= E[0].id
  {
    var low := E[0].id;
    if Exposed(E[0]) {
      SetEntriesAre(E);
      SetEntriesAre(F);
      assert E[0] in F;
    } else if low < INVALID_RID {
      LookupAtHead(E, low);
      LookupInTail(E, low + 1);
      LookupAtHead(E[1..], low + 1);
      AboveBoth(F, low);
      assert CeilingElems(E, low) == CeilingElems(F, low) && CeilingElems(E, low + 1) == CeilingElems(F, low + 1);
    }
  }

  lemma AboveBoth(F: seq<Entry>, low: RelationId)
    requires F != [] && low < INVALID_RID
    ensures low < F[0].id ==> CeilingElems(F, low) == CeilingElems(F, low + 1)
  {
  }

  lemma NonEmptyShows(E: seq<Entry>)
    requires Ascending(E) && IsEssential(E) && E != []
    ensures !SameLookups(E, [])
  {
    var last := E[|E| - 1];
    PosUnique(E, last.id, |E| - 1);
    assert CeilingElems(E, last.id) != [] && CeilingElems([], last.id) == [];
  }

  lemma TailLookups(E: seq<Entry>, F: seq<Entry>)
    requires Ascending(E) && Ascending(F) && E != [] && F != [] && E[0].id == F[0].id && SameLookups(E, F)
    ensures SameLookups(E[1..], F[1..])
  {
    var low := E[0].id;
    forall rid: RelationId
      ensures CeilingElems(E[1..], rid) == CeilingElems(F[1..], rid)
    {
      if low < rid {
        LookupInTail(E, rid);
        LookupInTail(F, rid);
        assert CeilingElems(E, rid) == CeilingElems(F, rid);
      } else {
        LookupAtHead(E[1..], rid);
        LookupAtHead(F[1..], rid);
        if low < INVALID_RID {
          LookupInTail(E, low + 1);
          LookupInTail(F, low + 1);
          LookupAtHead(E[1..], low + 1);
          LookupAtHead(F[1..], low + 1);
          assert CeilingElems(E, low + 1) == CeilingElems(F, low + 1);
        }
      }
    }
  }

  lemma {:induction false} SameEssential(E: seq<Entry>, F: seq<Entry>)
    requires Ascending(E) && IsEssential(E) && Ascending(F) && IsEssential(F)
    requires SetEntries(E) == SetEntries(F) && SameLookups(E, F)
    ensures E == F
  {
    if E == [] || F == [] {
      if E != [] { NonEmptyShows(E); }
      if F != [] { NonEmptyShows(F); }
    } else {
      HeadNotBelow(E, F);
      HeadNotBelow(F, E);
      LookupAtHead(E, E[0].id);
      LookupAtHead(F, E[0].id);
      assert CeilingElems(E, E[0].id) == CeilingElems(F, E[0].id);
      assert E[0] == F[0];
      TailLookups(E, F);
      SetEntriesTail(E);
      SetEntriesTail(F);
      SameEssential(E[1..], F[1..]);
      assert E == [E[0]] + E[1..] && F == [F[0]] + F[1..];
    }
  }

  lemma {:induction false} SetEntriesTail(L: seq<Entry>)
    requires L != []
    ensures SetEntries(L[1..]) == if Exposed(L[0]) then SetEntries(L)[1..] else SetEntries(L)
  {
  }

  /** Enumeration and lookups together tell two lists apart exactly when their essential entries differ. */
  lemma {:induction false} LooksSeeEssentials(L: seq<Entry>, M: seq<Entry>)
    requires Ascending(L) && Ascending(M)
    ensures SetEntries(L) == SetEntries(M) && SameLookups(L, M) <==> Essential(L) == Essential(M)
  {
    EssentialShowsAll(L);
    EssentialShowsAll(M);
    if SetEntries(L) == SetEntries(M) && SameLookups(L, M) {
      EssentialIs(L);
      EssentialIs(M);
      SameEssential(Essential(L), Essential(M));
    }
  }

  // ---- Lists without anything but set entries to tell ----------------------

  /** No variable with elements under the invalid id, and no cleared one below a set one. */
  ghost predicate Settled(L: seq<Entry>) {
    forall i | 0 <= i < |L| && !Exposed(L[i]) :: L[i].elems == [] && forall j | i < j < |L| :: !Exposed(L[j])
  }

  lemma SettledStep(L: seq<Entry>)
    requires L != []
    ensures Settled(L) <==>
            Settled(L[1..]) && (Exposed(L[0]) || (L[0].elems == [] && forall j | 0 < j < |L| :: !Exposed(L[j])))
  {
    assert forall i | 0 < i < |L| :: L[i] == L[1..][i - 1];
    if Settled(L) {
      forall i | 0 <= i < |L[1..]| && !Exposed(L[1..][i])
        ensures L[1..][i].elems == [] && forall j | i < j < |L[1..]| :: !Exposed(L[1..][j])
      {
        assert L[1..][i] == L[i + 1];
      }
    }
  }

  lemma {:induction false} EssentialOfSettled(L: seq<Entry>)
    ensures Settled(L) <==> forall e | e in Essential(L) :: Exposed(e)
  {
    if L != [] {
      EssentialOfSettled(L[1..]);
      SettledStep(L);
      assert |L| > 1 ==> L[1..][0] == L[1];
      if Shows(L) {
        assert L[0] in Essential(L);
      }
    }
  }

  lemma {:induction false} EssentialOfExposed(S: seq<Entry>)
    requires forall e | e in S :: Exposed(e)
    ensures Essential(S) == S && SetEntries(S) == S
  {
    if S != [] {
      assert S[0] in S;
      EssentialOfExposed(S[1..]);
      assert S == [S[0]] + S[1..];
    }
  }

  /**
   Dropping everything that enumeration passes over changes no lookup exactly when the list
   is settled.
   */
  lemma {:induction false} SettledIff(L: seq<Entry>)
    requires Ascending(L)
    ensures SameLookups(L, SetEntries(L)) <==> Settled(L)
  {
    var S := SetEntries(L);
    SetEntriesAre(L);
    SetEntriesAscend(L);
    EssentialOfExposed(S);
    LooksSeeEssentials(L, S);
    EssentialOfSettled(L);
    if Settled(L) {
      EssentialOfExposed(Essential(L));
      EssentialShowsAll(L);
    }
  }

  // ---- Lists that no getter tells apart ------------------------------------

  /** All entries but a cleared one under the invalid id, which nothing tells from its absence. */
  function Observed(L: seq<Entry>): seq<Entry> {
    if L == [] || Unseen(L[0]) then [] else [L[0]] + Observed(L[1..])
  }

  predicate Unseen(e: Entry) { e.id == INVALID_RID && e.elems == [] }

  lemma {:induction false} ObservedIs(L: seq<Entry>)
    requires Ascending(L)
    ensures var S := Observed(L);
      Ascending(S) && forall e :: e in S <==> e in L && !Unseen(e)
  {
    if L != [] {
      var S := Observed(L[1..]);
      ObservedIs(L[1..]);
      assert forall e :: e in L <==> e == L[0] || e in L[1..];
      if Unseen(L[0]) {
        IdGap(L, 0, |L| - 1);
      } else {
        assert forall i | 0 <= i < |S| :: S[i] in S && S[i] in L[1..];
        ConsAscending(L[0], S);
      }
    }
  }

  lemma ConsAscending(e: Entry, E: seq<Entry>)
    requires Ascending(E) && forall i | 0 <= i < |E| :: E[i].id > e.id
    ensures Ascending([e] + E)
  {
  }

  lemma InAscending(L: seq<Entry>, e: Entry)
    requires Ascending(L) && e in L
    ensures Indexed(L, e.id) && CeilingElems(L, e.id) == e.elems
  {
    var i :| 0 <= i < |L| && L[i] == e;
    PosUnique(L, e.id, i);
  }

  lemma {:induction false} ObservedShowsAll(L: seq<Entry>)
    requires Ascending(L)
    ensures var S := Observed(L); SetEntries(S) == SetEntries(L) && SameLookups(S, L) && SameIndexed(S, L)
  {
    if L != [] {
      var S := Observed(L[1..]);
      if Unseen(L[0]) {
        IdGap(L, 0, |L| - 1);
        assert L == [L[0]];
      } else {
        ObservedShowsAll(L[1..]);
        assert ([L[0]] + S)[1..] == S;
        forall rid: RelationId
          ensures CeilingElems([L[0]] + S, rid) == CeilingElems(L, rid)
        {
          LookupInTail([L[0]] + S, rid);
          LookupInTail(L, rid);
          assert CeilingElems(S, rid) == CeilingElems(L[1..], rid);
        }
        forall r: RelationId | r < INVALID_RID
          ensures Indexed([L[0]] + S, r) <==> Indexed(L, r)
        {
          ObservedIndexed(L, r);
        }
      }
    }
  }

  lemma ObservedIndexed(L: seq<Entry>, r: RelationId)
    requires Ascending(L) && r < INVALID_RID
    ensures Indexed(Observed(L), r) <==> Indexed(L, r)
  {
    ObservedIs(L);
    if Indexed(L, r) { InAscending(Observed(L), L[Pos(L, r)]); }
    if Indexed(Observed(L), r) { InAscending(L, Observed(L)[Pos(Observed(L), r)]); }
  }

  /** All getters together tell two lists apart exactly when their observed entries differ. */
  lemma GettersSeeObserved(L: seq<Entry>, M: seq<Entry>)
    requires Ascending(L) && Ascending(M)
    ensures SetEntries(L) == SetEntries(M) && SameLookups(L, M) && SameModified(L, M) <==> Observed(L) == Observed(M)
  {
    ObservedShowsAll(L);
    ObservedShowsAll(M);
    SameModifiedIff(L, M);
    if SameLookups(L, M) && SameIndexed(L, M) {
      ObservedWithin(L, M);
      ObservedWithin(M, L);
      SameMembers(Observed(L), Observed(M));
    }
  }

  lemma ObservedWithin(L: seq<Entry>, M: seq<Entry>)
    requires Ascending(L) && Ascending(M) && SameLookups(L, M) && SameIndexed(L, M)
    ensures Ascending(Observed(L)) && forall e | e in Observed(L) :: e in Observed(M)
  {
    ObservedIs(L);
    ObservedIs(M);
    forall e | e in Observed(L)
      ensures e in Observed(M)
    {
      InAscending(L, e);
      assert CeilingElems(M, e.id) == e.elems;
      assert Indexed(M, e.id);
      assert M[Pos(M, e.id)] == e;
    }
  }

  lemma {:induction false} SameMembers(L: seq<Entry>, M: seq<Entry>)
    requires Ascending(L) && Ascending(M) && forall e :: e in L <==> e in M
    ensures L == M
  {
    NonEmptyMembers(L, M);
    NonEmptyMembers(M, L);
    if L != [] {
      assert L[0] in M && M[0] in L;
      assert L[0] == M[0];
      forall e
        ensures e in L[1..] <==> e in M[1..]
      {
        TailMembers(L, e);
        TailMembers(M, e);
      }
      SameMembers(L[1..], M[1..]);
      assert L == [L[0]] + L[1..] && M == [M[0]] + M[1..];
    }
  }

  lemma NonEmptyMembers(L: seq<Entry>, M: seq<Entry>)
    requires forall e | e in L :: e in M
    ensures L != [] ==> M != []
  {
    if L != [] { assert L[0] in M; }
  }

  lemma TailMembers(L: seq<Entry>, e: Entry)
    requires Ascending(L) && L != []
    ensures e in L[1..] <==> e in L && e != L[0]
  {
    assert e in L <==> e == L[0] || e in L[1..];
  }

  /** Nothing is cleared, save perhaps under the invalid id, where nothing is set. */
  ghost predicate AllSet(L: seq<Entry>) {
    forall e | e in L :: Exposed(e) || Unseen(e)
  }

  /** Dropping everything that enumeration passes over changes no getter exactly when all entries are set. */
  lemma AllSetIff(L: seq<Entry>)
    requires Ascending(L)
    ensures SameLookups(L, SetEntries(L)) && SameModified(L, SetEntries(L)) <==> AllSet(L)
  {
    var S := SetEntries(L);
    SetEntriesAre(L);
    SetEntriesAscend(L);
    EssentialOfExposed(S);
    GettersSeeObserved(L, S);
    ObservedIs(L);
    ObservedIs(S);
    SameMembers(Observed(S), S);
    if AllSet(L) {
      SameMembers(Observed(L), S);
    }
  }
}
