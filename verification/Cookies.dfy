/**
 A visitor cookie as a value: the fields of `VCookie`, the effect of its operations on
 them, what its getters show, and what its equality test decides.
 */
module Cookies {
  import opened Bytes
  import opened VarIndex
  import opened VarProperties
  import opened Lookups
  import opened PurchaseIds

  datatype Key = Key(userid: UInt32, high: UInt64, low: UInt64)

  datatype Flags = Flags(
    newCookie: bool, modified: bool, traffic: bool, ecommerce: bool, merchandising: bool, relVar: bool)

  datatype Cookie = Cookie(
    key: Key,
    firstHit: Time, lastHit: Time, lastHitLocal: Time, visitNum: UInt32,
    lastPurchase: Time, referrer: Text, url: Text, pagename: Text, purchaseNum: UInt32,
    merchandising: Text, purchaseIds: seq<Text>, vars: seq<Entry>, flags: Flags)

  ghost predicate WellFormed(c: Cookie) {
    Ascending(c.vars) && ValidIds(c.purchaseIds)
  }

  function Unmodified(newCookie: bool): Flags { Flags(newCookie, false, false, false, false, false) }

  function Blank(key: Key, flags: Flags): Cookie {
    Cookie(key, 0, 0, 0, 0, 0, [], [], [], 0, [], [], [], flags)
  }

  // ---- Operations ----------------------------------------------------------

  function Traffic(f: Flags): Flags { f.(modified := true, traffic := true) }
  function Ecommerce(f: Flags): Flags { f.(modified := true, ecommerce := true) }
  function Merchandised(f: Flags): Flags { f.(modified := true, merchandising := true) }
  function Touched(f: Flags): Flags { f.(modified := true, relVar := true) }

  datatype CookieOp =
    | FirstHit(t: Time) | LastHit(t: Time) | LastHitLocal(t: Time) | VisitNum(n: UInt32)
    | LastPurchase(t: Time) | Referrer(s: Text) | Url(s: Text) | Pagename(s: Text) | PurchaseNum(n: UInt32)
    | Merchandising(s: Text) | PurchaseId(s: Text)
    | SetVariable(rid: RelationId, e: RelVar, alloc: AllocationType, maxLinear: UInt32)
    | ClearVariable(rid: RelationId)
    | AddElement(rid: RelationId, e: RelVar)

  /** Whether `SetVar` writes the value it is given. */
  predicate Writes(L: seq<Entry>, rid: RelationId, e: RelVar, alloc: AllocationType) {
    e.value != [] && !(alloc.First? && |Elems(L, rid)| == 1)
  }

  function Apply(c: Cookie, op: CookieOp): Cookie {
    match op
    case FirstHit(t) => c.(firstHit := t, flags := Traffic(c.flags))
    case LastHit(t) => c.(lastHit := t, flags := Traffic(c.flags))
    case LastHitLocal(t) => c.(lastHitLocal := t, flags := Traffic(c.flags))
    case VisitNum(n) => c.(visitNum := n, flags := Traffic(c.flags))
    case LastPurchase(t) => c.(lastPurchase := t, flags := Ecommerce(c.flags))
    case Referrer(s) => c.(referrer := s, flags := Ecommerce(c.flags))
    case Url(s) => c.(url := s, flags := Ecommerce(c.flags))
    case Pagename(s) => c.(pagename := s, flags := Ecommerce(c.flags))
    case PurchaseNum(n) => c.(purchaseNum := n, flags := Ecommerce(c.flags))
    case Merchandising(s) => c.(merchandising := s, flags := Merchandised(c.flags))
    case PurchaseId(s) =>
      c.(purchaseIds := Use(c.purchaseIds, s),
         flags := if s in c.purchaseIds then c.flags else Ecommerce(c.flags))
    case SetVariable(rid, e, alloc, maxLinear) =>
      c.(vars := SetVar(c.vars, rid, e, alloc, maxLinear),
         flags := if Writes(c.vars, rid, e, alloc) then Touched(c.flags) else c.flags)
    case ClearVariable(rid) => c.(vars := Clear(c.vars, rid))
    case AddElement(rid, e) => c.(vars := AddLinear(c.vars, rid, e), flags := Touched(c.flags))
  }

  function ApplyAll(c: Cookie, ops: seq<CookieOp>): Cookie
    decreases |ops|
  {
    if ops == [] then c else ApplyAll(Apply(c, ops[0]), ops[1..])
  }

  lemma ApplyKeepsWellFormed(c: Cookie, op: CookieOp)
    requires WellFormed(c)
    ensures WellFormed(Apply(c, op)) && Apply(c, op).key == c.key
  {
    hide Ascending, ValidIds, SetVar, Clear, Put, Elems, Use;
    match op
    case PurchaseId(s) => UseKeepsValid(c.purchaseIds, s);
    case SetVariable(rid, e, alloc, maxLinear) =>
      StepRefines(c.vars, Set(rid, e, alloc, maxLinear));
    case ClearVariable(rid) => ClearMap(c.vars, rid);
    case AddElement(rid, e) => PutAscending(c.vars, rid, Elems(c.vars, rid) + [e]);
    case _ =>
  }

  /** Every run of operations keeps the index sorted and the purchase ids distinct and at most five. */
  lemma {:induction false} RunKeepsWellFormed(c: Cookie, ops: seq<CookieOp>)
    requires WellFormed(c)
    ensures WellFormed(ApplyAll(c, ops)) && ApplyAll(c, ops).key == c.key
    decreases |ops|
  {
    if ops != [] {
      ApplyKeepsWellFormed(c, ops[0]);
      RunKeepsWellFormed(Apply(c, ops[0]), ops[1..]);
    }
  }

  // ---- What the getters show -----------------------------------------------

  /**
   What enumerating a cookie shows: two of the time getters answer with the last hit time,
   and only set variables with an id below 65535 are enumerated.
   */
  function Enumerated(c: Cookie): Cookie {
    c.(lastHitLocal := c.lastHit, lastPurchase := c.lastHit,
       vars := SetEntries(c.vars), flags := Unmodified(false))
  }

  /** Enumeration and lookups: what enumerating the set variables shows, and the lookup of every single id. */
  ghost predicate LookAlike(a: Cookie, b: Cookie) {
    Enumerated(a) == Enumerated(b) && SameLookups(a.vars, b.vars)
  }

  /**
   All getters but those of the cookie's flags: enumeration, lookups, and the enumeration of
   modified variables, which tells a cleared variable from one that was never set.
   */
  ghost predicate SameGetters(a: Cookie, b: Cookie) {
    LookAlike(a, b) && SameModified(a.vars, b.vars)
  }

  /** Enumeration and lookups agree exactly when the scalars and the essential entries do. */
  lemma LookAlikeIff(a: Cookie, b: Cookie)
    requires WellFormed(a) && WellFormed(b)
    ensures LookAlike(a, b) <==> SameScalars(a, b) && Essential(a.vars) == Essential(b.vars)
  {
    LooksSeeEssentials(a.vars, b.vars);
    SameEnumeration(a, b);
  }

  /** No getter tells two cookies apart exactly when their scalars and observed entries agree. */
  lemma SameGettersIff(a: Cookie, b: Cookie)
    requires WellFormed(a) && WellFormed(b)
    ensures SameGetters(a, b) <==> SameScalars(a, b) && Observed(a.vars) == Observed(b.vars)
  {
    GettersSeeObserved(a.vars, b.vars);
    SameEnumeration(a, b);
  }

  lemma SameEnumeration(a: Cookie, b: Cookie)
    ensures Enumerated(a) == Enumerated(b) <==> SameScalars(a, b) && SetEntries(a.vars) == SetEntries(b.vars)
  {
    var x, y := Enumerated(a), Enumerated(b);
    assert x.key == a.key && x.firstHit == a.firstHit && x.lastHit == a.lastHit && x.visitNum == a.visitNum;
    assert y.key == b.key && y.firstHit == b.firstHit && y.lastHit == b.lastHit && y.visitNum == b.visitNum;
    assert x.referrer == a.referrer && x.url == a.url && x.pagename == a.pagename;
    assert y.referrer == b.referrer && y.url == b.url && y.pagename == b.pagename;
    assert x.purchaseNum == a.purchaseNum && x.merchandising == a.merchandising && x.purchaseIds == a.purchaseIds;
    assert y.purchaseNum == b.purchaseNum && y.merchandising == b.merchandising && y.purchaseIds == b.purchaseIds;
  }

  // ---- Which changes mark the cookie ---------------------------------------

  /** Whether `op` changes what the getters show without marking the cookie modified. */
  predicate Silent(c: Cookie, op: CookieOp) {
    match op
    case PurchaseId(s) => s in c.purchaseIds && s != c.purchaseIds[|c.purchaseIds| - 1]
    case SetVariable(rid, e, alloc, _) => e.value == [] && alloc.Last? && CeilingElems(c.vars, rid) != []
    case ClearVariable(rid) => CeilingElems(c.vars, rid) != []
    case _ => false
  }

  /** Whether a clear of `rid` reaches the variable under the invalid id. */
  predicate ReachesSentinel(c: Cookie, op: CookieOp) {
    (op.SetVariable? || op.ClearVariable?)
    && Pos(c.vars, op.rid) < |c.vars| && c.vars[Pos(c.vars, op.rid)].id == INVALID_RID
  }

  /**
   "A change marks the cookie modified" fails exactly for `Silent` operations: reusing a
   purchase id that is not the last one, and a clear whose lookup finds elements. The
   destructor saves a cookie only if it is marked, so such a change alone is lost.
   Enumeration shows those changes, too, apart from a clear that reaches id 65535.
   */
  lemma UnmarkedChangeIff(c: Cookie, op: CookieOp)
    requires WellFormed(c) && !c.flags.modified
    ensures !SameGetters(Apply(c, op), c) && !Apply(c, op).flags.modified <==> Silent(c, op)
    ensures Enumerated(Apply(c, op)) != Enumerated(c) && !Apply(c, op).flags.modified
       <==> Silent(c, op) && !ReachesSentinel(c, op)
  {
    hide SetEntries, Ascending, Pos, SetVar, Clear, Use, Elems, CeilingElems, Exposed, After, IndexedFrom;
    match op
    case PurchaseId(s) =>
      if s in c.purchaseIds { ReuseOfLast(c.purchaseIds, s); }
    case SetVariable(rid, e, alloc, maxLinear) =>
      ClearIsSeen(c.vars, rid);
      if !Writes(c.vars, rid, e, alloc) { SetUnwritten(c.vars, rid, e, alloc, maxLinear); }
    case ClearVariable(rid) =>
      ClearIsSeen(c.vars, rid);
    case _ =>
  }

  lemma SetUnwritten(L: seq<Entry>, rid: RelationId, e: RelVar, alloc: AllocationType, maxLinear: UInt32)
    requires !Writes(L, rid, e, alloc)
    ensures SetVar(L, rid, e, alloc, maxLinear) == if e.value == [] && alloc.Last? then Clear(L, rid) else L
  {
  }

  lemma {:induction false} ClearIsSeen(L: seq<Entry>, rid: RelationId)
    requires Ascending(L)
    ensures var found, p := CeilingElems(L, rid), Pos(L, rid);
      && (if found == [] then Clear(L, rid) == L else !SameLookups(Clear(L, rid), L))
      && (SetEntries(Clear(L, rid)) != SetEntries(L) <==> found != [] && !(p < |L| && L[p].id == INVALID_RID))
  {
    ClearShows(L, rid);
    ClearIsLookedUp(L, rid);
  }

  lemma ClearIsLookedUp(L: seq<Entry>, rid: RelationId)
    requires Ascending(L)
    ensures if CeilingElems(L, rid) == [] then Clear(L, rid) == L else !SameLookups(Clear(L, rid), L)
  {
    var p := Pos(L, rid);
    if CeilingElems(L, rid) != [] {
      PosUnique(L, L[p].id, p);
      PosUnique(Clear(L, rid), L[p].id, p);
      assert CeilingElems(Clear(L, rid), L[p].id) != CeilingElems(L, L[p].id);
    }
  }

  lemma ReuseOfLast(ids: seq<Text>, s: Text)
    requires ValidIds(ids) && s in ids
    ensures Use(ids, s) == ids <==> s == ids[|ids| - 1]
  {
    var n := |ids| - 1;
    assert Use(ids, s)[n] == s;
    if s == ids[n] {
      var init := ids[..n];
      assert ids == init + [s];
      assert forall i | 0 <= i < n :: init[i] != ids[n];
      WithoutConcat(init, [s], s);
    }
  }

  lemma {:induction false} ClearShows(L: seq<Entry>, rid: RelationId)
    requires Ascending(L)
    ensures SetEntries(Clear(L, rid)) != SetEntries(L) <==> Pos(L, rid) < |L| && Exposed(L[Pos(L, rid)])
  {
    if L != [] {
      if L[0].id >= rid {
        assert Clear(L, rid)[1..] == L[1..];
        ConsInjective(L[0], SetEntries(L[1..]), []);
      } else {
        ClearShows(L[1..], rid);
        ConsInjective(L[0], SetEntries(L[1..]), SetEntries(Clear(L[1..], rid)));
        assert Clear(L, rid)[1..] == Clear(L[1..], rid);
      }
    }
  }

  lemma ConsInjective<T>(x: T, s: seq<T>, t: seq<T>)
    ensures [x] + s == [x] + t <==> s == t
    ensures [x] + s != s
  {
    assert ([x] + s)[1..] == s && ([x] + t)[1..] == t;
    assert |[x] + s| == |s| + 1;
  }

  /** Whether `op` marks the cookie modified. */
  predicate Marks(c: Cookie, op: CookieOp) {
    match op
    case PurchaseId(s) => s !in c.purchaseIds
    case SetVariable(rid, e, alloc, _) => Writes(c.vars, rid, e, alloc)
    case ClearVariable(_) => false
    case _ => true
  }

  /** Whether some operation of a run does. */
  predicate RunMarks(c: Cookie, ops: seq<CookieOp>)
    decreases |ops|
  {
    ops != [] && (Marks(c, ops[0]) || RunMarks(Apply(c, ops[0]), ops[1..]))
  }

  /** What operations that do not mark the cookie can do: reorder the purchase ids and empty variables. */
  ghost predicate OnlyLost(c: Cookie, d: Cookie) {
    && d == c.(purchaseIds := d.purchaseIds, vars := d.vars)
    && |d.vars| == |c.vars|
    && forall i | 0 <= i < |d.vars| :: d.vars[i] == c.vars[i] || d.vars[i] == Entry(c.vars[i].id, [])
  }

  lemma MarksIff(c: Cookie, op: CookieOp)
    ensures Apply(c, op).flags.modified <==> c.flags.modified || Marks(c, op)
    ensures !Marks(c, op) ==> OnlyLost(c, Apply(c, op))
  {
    hide Use, Pos, SetVar;
    if op.SetVariable? && !Marks(c, op) { SetUnwritten(c.vars, op.rid, op.e, op.alloc, op.maxLinear); }
  }

  /** A run marks the cookie exactly when one of its operations does; otherwise it only loses things. */
  lemma {:induction false} RunMarksIff(c: Cookie, ops: seq<CookieOp>)
    ensures ApplyAll(c, ops).flags.modified <==> c.flags.modified || RunMarks(c, ops)
    ensures !RunMarks(c, ops) ==> OnlyLost(c, ApplyAll(c, ops))
    decreases |ops|
  {
    if ops != [] {
      hide Apply, Marks;
      MarksIff(c, ops[0]);
      RunMarksIff(Apply(c, ops[0]), ops[1..]);
    }
  }

  /**
   After a run without a mark all getters show the same exactly when the cookie is the same;
   enumeration and lookups are enough to tell.
   */
  lemma {:induction false} UnmarkedRunIff(c: Cookie, ops: seq<CookieOp>)
    requires WellFormed(c) && !RunMarks(c, ops)
    ensures SameGetters(ApplyAll(c, ops), c) <==> ApplyAll(c, ops) == c
    ensures LookAlike(ApplyAll(c, ops), c) <==> ApplyAll(c, ops) == c
  {
    var d := ApplyAll(c, ops);
    RunMarksIff(c, ops);
    if LookAlike(d, c) {
      assert d.purchaseIds == Enumerated(d).purchaseIds == c.purchaseIds;
      forall i | 0 <= i < |d.vars|
        ensures d.vars[i] == c.vars[i]
      {
        PosUnique(c.vars, c.vars[i].id, i);
        PosUnique(d.vars, c.vars[i].id, i);
        assert CeilingElems(d.vars, c.vars[i].id) == CeilingElems(c.vars, c.vars[i].id);
      }
      assert d.vars == c.vars;
    }
  }

  // ---- Equality ------------------------------------------------------------

  /** The elements that a 32-bit count exposes. */
  function Counted(elems: seq<RelVar>): seq<RelVar> { elems[..|elems| % 0x1_0000_0000] }

  predicate SameScalars(a: Cookie, b: Cookie) {
    && a.key == b.key && a.lastHit == b.lastHit && a.firstHit == b.firstHit && a.visitNum == b.visitNum
    && a.referrer == b.referrer && a.url == b.url && a.pagename == b.pagename
    && a.purchaseNum == b.purchaseNum && a.purchaseIds == b.purchaseIds && a.merchandising == b.merchandising
  }

  /** What looking the entry up in another cookie finds equals the entry. */
  predicate FoundIn(e: Entry, L: seq<Entry>) { Counted(CeilingElems(L, e.id)) == Counted(e.elems) }

  /** What `operator ==` decides. It enumerates the left cookie only. */
  predicate Equals(a: Cookie, b: Cookie) {
    && SameScalars(a, b)
    && FirstSetId(a.vars) == FirstSetId(b.vars)
    && forall e | e in SetEntries(a.vars) :: FoundIn(e, b.vars)
  }

  ghost predicate Countable(c: Cookie) {
    forall e | e in SetEntries(c.vars) :: |e.elems| < U32
  }

  lemma {:induction false} FirstOfEntries(L: seq<Entry>, pos: nat)
    requires Ascending(L) && pos <= |L|
    ensures var S := SetEntries(L[pos..]);
      SetIdFrom(L, pos) == if S == [] then INVALID_RID else S[0].id
    decreases |L| - pos
  {
    WalkFrom(L, pos);
    assert SetEntries(L[pos..]) != [] ==> SetIds(L[pos..])[0] == SetEntries(L[pos..])[0].id;
  }

  lemma {:induction false} EntryFound(L: seq<Entry>, e: Entry)
    requires Ascending(L) && e in SetEntries(L)
    ensures CeilingElems(L, e.id) == e.elems
  {
    SetEntriesAre(L);
    var i :| 0 <= i < |L| && L[i] == e;
    PosUnique(L, e.id, i);
  }

  /**
   `operator ==` alone does not establish that two cookies enumerate the same. Together with
   the check that both enumerate the same variable ids, it does exactly that.
   */
  lemma EqualityExactly(a: Cookie, b: Cookie)
    requires WellFormed(a) && WellFormed(b) && Countable(a) && Countable(b)
    ensures Enumerated(a) == Enumerated(b) <==> Equals(a, b) && SetIds(a.vars) == SetIds(b.vars)
  {
    if Enumerated(a) == Enumerated(b) {
      EnumerationImpliesEquality(a, b);
    }
    if Equals(a, b) && SetIds(a.vars) == SetIds(b.vars) {
      SameEntries(a.vars, b.vars);
    }
  }

  lemma CountedAll(elems: seq<RelVar>)
    requires |elems| < U32
    ensures Counted(elems) == elems
  {
  }

  lemma {:induction false} SameEntry(a: Entry, b: Entry, M: seq<Entry>)
    requires Ascending(M) && b in SetEntries(M) && a.id == b.id && FoundIn(a, M)
    requires |a.elems| < U32 && |b.elems| < U32
    ensures a == b
  {
    EntryFound(M, b);
    CountedAll(a.elems);
    CountedAll(b.elems);
  }

  lemma {:induction false} SameEntries(L: seq<Entry>, M: seq<Entry>)
    requires Ascending(M) && SetIds(L) == SetIds(M)
    requires forall e | e in SetEntries(L) :: FoundIn(e, M) && |e.elems| < U32
    requires forall e | e in SetEntries(M) :: |e.elems| < U32
    ensures SetEntries(L) == SetEntries(M)
  {
    var A, B := SetEntries(L), SetEntries(M);
    assert |A| == |SetIds(L)| == |SetIds(M)| == |B|;
    forall i | 0 <= i < |A|
      ensures A[i] == B[i]
    {
      assert SetIds(L)[i] == A[i].id && SetIds(M)[i] == B[i].id;
      assert A[i] in A && B[i] in B;
      SameEntry(A[i], B[i], M);
    }
  }

  lemma EnumerationImpliesEquality(a: Cookie, b: Cookie)
    requires WellFormed(a) && WellFormed(b) && Enumerated(a) == Enumerated(b)
    ensures Equals(a, b) && SetIds(a.vars) == SetIds(b.vars)
  {
    var A, B := SetEntries(a.vars), SetEntries(b.vars);
    assert A == Enumerated(a).vars == Enumerated(b).vars == B;
    FirstOfEntries(a.vars, 0);
    FirstOfEntries(b.vars, 0);
    assert a.vars[0..] == a.vars && b.vars[0..] == b.vars;
    forall e | e in A
      ensures FoundIn(e, b.vars)
    {
      EntryFound(b.vars, e);
    }
  }

  /** The first enumerated id, on the map. */
  lemma FirstSetOnMap(L: seq<Entry>, r: RelationId)
    requires Ascending(L)
    ensures FirstSetId(L) == r <==> if r == 0xFFFF then forall q: RelationId | q < r :: Get(ToMap(L), q) == []
            else Get(ToMap(L), r) != [] && forall q: RelationId | q < r :: Get(ToMap(L), q) == []
  {
    hide ToMap, Ascending, Get, Elems;
    var first := FirstSetId(L);
    var all := Walk(L, first);
    EnumerationIsComplete(L, 0);
    forall q: RelationId
      ensures Elems(L, q) == Get(ToMap(L), q)
      ensures q in all ==> first <= q
    {
      LookupOnMap(L, q);
      if q in all {
        var i :| 0 <= i < |all| && all[i] == q;
        assert first == all[0];
      }
    }
    assert first != INVALID_RID ==> all[0] in all;
  }

  /**
   What `operator ==` decides, on the maps: besides the scalars, the lowest set ids agree (or
   neither cookie has a set id), and every set id of the left cookie finds, by a lookup in the
   right one, what it has itself. Set ids of the right one beyond that play no part.
   */
  lemma EqualsOnMaps(a: Cookie, b: Cookie)
    requires WellFormed(a) && WellFormed(b)
    ensures var m, n := ToMap(a.vars), ToMap(b.vars);
      Equals(a, b) <==>
        && SameScalars(a, b)
        && (forall r: RelationId | r < 0xFFFF ::
              (Get(m, r) != [] && forall q: RelationId | q < r :: Get(m, q) == [])
              <==> (Get(n, r) != [] && forall q: RelationId | q < r :: Get(n, q) == []))
        && forall r: RelationId | r < 0xFFFF && Get(m, r) != [] :: Counted(Find(n, r)) == Counted(Get(m, r))
  {
    SameFirstOnMap(a.vars, b.vars);
    AllFoundOnMap(a.vars, b.vars);
    hide ToMap, Get, Find, Counted, FirstSetId, FoundIn, SameScalars;
    LowestIs(ToMap(a.vars), ToMap(b.vars));
  }

  lemma LowestIs(m: map<RelationId, seq<RelVar>>, n: map<RelationId, seq<RelVar>>)
    ensures (forall r: RelationId | r < 0xFFFF :: Lowest(m, r) <==> Lowest(n, r))
       <==> forall r: RelationId | r < 0xFFFF ::
              (Get(m, r) != [] && forall q: RelationId | q < r :: Get(m, q) == [])
              <==> (Get(n, r) != [] && forall q: RelationId | q < r :: Get(n, q) == [])
  {
    hide Get;
    forall r: RelationId | r < 0xFFFF
      ensures Lowest(m, r) <==> (Get(m, r) != [] && forall q: RelationId | q < r :: Get(m, q) == [])
      ensures Lowest(n, r) <==> (Get(n, r) != [] && forall q: RelationId | q < r :: Get(n, q) == [])
    {
    }
  }

  ghost predicate Lowest(m: map<RelationId, seq<RelVar>>, r: RelationId) {
    Get(m, r) != [] && forall q: RelationId | q < r :: Get(m, q) == []
  }

  lemma SameFirstOnMap(L: seq<Entry>, M: seq<Entry>)
    requires Ascending(L) && Ascending(M)
    ensures FirstSetId(L) == FirstSetId(M)
       <==> forall r: RelationId | r < 0xFFFF :: Lowest(ToMap(L), r) <==> Lowest(ToMap(M), r)
  {
    var l, m := FirstSetId(L), FirstSetId(M);
    forall r: RelationId | r < 0xFFFF
      ensures Lowest(ToMap(L), r) <==> l == r
      ensures Lowest(ToMap(M), r) <==> m == r
    {
      FirstSetOnMap(L, r);
      FirstSetOnMap(M, r);
    }
    if l == m {
      assert forall r: RelationId | r < 0xFFFF :: Lowest(ToMap(L), r) <==> Lowest(ToMap(M), r);
    } else {
      var r := if l < 0xFFFF then l else m;
      assert Lowest(ToMap(L), r) != Lowest(ToMap(M), r);
    }
  }

  lemma AllFoundOnMap(L: seq<Entry>, M: seq<Entry>)
    requires Ascending(L) && Ascending(M)
    ensures var m, n := ToMap(L), ToMap(M);
      (forall e | e in SetEntries(L) :: FoundIn(e, M))
      <==> forall r: RelationId | r < 0xFFFF && Get(m, r) != [] :: Counted(Find(n, r)) == Counted(Get(m, r))
  {
    hide ToMap, Get, Find, Counted, Pos;
    SetEntriesAre(L);
    forall r: RelationId | r < 0xFFFF && Get(ToMap(L), r) != []
      ensures Entry(r, Get(ToMap(L), r)) in SetEntries(L)
      ensures FoundIn(Entry(r, Get(ToMap(L), r)), M) <==> Counted(Find(ToMap(M), r)) == Counted(Get(ToMap(L), r))
    {
      LookupOnMap(L, r);
      LookupOnMap(M, r);
      assert Indexed(L, r);
      assert L[Pos(L, r)] == Entry(r, Get(ToMap(L), r));
    }
    forall e | e in SetEntries(L)
      ensures e.id < 0xFFFF && Get(ToMap(L), e.id) == e.elems != []
    {
      LookupOnMap(L, e.id);
      InAscending(L, e);
    }
  }

  // Without that check it is not symmetric, and cookies it calls equal in both directions
  // may look different.

  const X := [RelVar([1], 0, 0)]
  const Y := [RelVar([2], 0, 0)]

  function Holding(vars: seq<Entry>): Cookie { Blank(Key(0, 0, 0), Unmodified(true)).(vars := vars) }

  lemma {:induction false} AllExposed(L: seq<Entry>)
    requires forall i | 0 <= i < |L| :: Exposed(L[i])
    ensures SetEntries(L) == L
  {
    if L != [] {
      AllExposed(L[1..]);
      assert L == [L[0]] + L[1..];
    }
  }

  lemma EqualityIsNotSymmetric()
    ensures var a, b := Holding([Entry(1, X)]), Holding([Entry(1, X), Entry(2, Y)]);
      WellFormed(a) && WellFormed(b) && Equals(a, b) && !Equals(b, a)
  {
    var L, M := [Entry(1, X)], [Entry(1, X), Entry(2, Y)];
    AllExposed(L);
    AllExposed(M);
    PosUnique(M, 1, 0);
    PosUnique(L, 2, 1);
    assert M[1] in SetEntries(M) && !FoundIn(M[1], L);
  }

  const L123 := [Entry(1, X), Entry(2, Y), Entry(3, Y)]
  const L13 := [Entry(1, X), Entry(3, Y)]

  lemma MutualEqualityIsNotEnough()
    ensures WellFormed(Holding(L123)) && WellFormed(Holding(L13))
    ensures Equals(Holding(L123), Holding(L13)) && Equals(Holding(L13), Holding(L123))
    ensures Enumerated(Holding(L123)) != Enumerated(Holding(L13))
  {
    hide Counted, CeilingElems, SetEntries, Pos;
    AllExposed(L123);
    AllExposed(L13);
    CeilingAt(L13, 1, 0);
    CeilingAt(L13, 2, 1);
    CeilingAt(L13, 3, 1);
    CeilingAt(L123, 1, 0);
    CeilingAt(L123, 3, 2);
  }

  /** Nothing above notices a cleared variable that keeps lookups from its neighbour. */
  lemma ClearedEntriesAreNotCompared()
    ensures var a, b := Holding([Entry(11, []), Entry(12, X)]), Holding([Entry(12, X)]);
      && WellFormed(a) && WellFormed(b) && Equals(a, b) && Equals(b, a) && Enumerated(a) == Enumerated(b)
      && CeilingElems(a.vars, 11) == [] && CeilingElems(b.vars, 11) == X
  {
    var L, M := [Entry(11, []), Entry(12, X)], [Entry(12, X)];
    AllExposed(M);
    assert L[1..] == M;
    EnumerationImpliesEquality(Holding(L), Holding(M));
    EnumerationImpliesEquality(Holding(M), Holding(L));
    CeilingAt(L, 11, 0);
    CeilingAt(M, 11, 0);
  }

  lemma CeilingAt(L: seq<Entry>, rid: RelationId, p: nat)
    requires Ascending(L) && p < |L| && rid <= L[p].id && (p > 0 ==> L[p - 1].id < rid)
    ensures CeilingElems(L, rid) == L[p].elems
  {
    PosUnique(L, rid, p);
  }
}
