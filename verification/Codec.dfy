/**
 The codec: which message a cookie is serialized to, and which operations on a cookie a
 message stands for. The bytes in between are the business of module Wire.
 */
module Codec {
  import opened Bytes
  import opened VarIndex
  import opened VarProperties
  import opened PurchaseIds
  import opened Cookies
  import opened Wire

  // ---- From a cookie to a message ------------------------------------------

  /** The field written under a tag; zero and empty values are left out. */
  function FieldOf(c: Cookie, id: Byte, saveLastHit: bool): Option<Field> {
    match id
    case 1 => TimeOf(1, c.firstHit)
    case 2 => if saveLastHit then TimeOf(2, c.lastHit) else None
    case 3 => TimeOf(3, c.lastHit)  // GetLastHitTimeVisitorLocal answers with the last hit time
    case 4 => CountOf(4, c.visitNum)
    case 5 => TimeOf(5, c.lastHit)  // and so does GetLastPurchaseTimeGMT
    case 6 => TextOf(6, c.referrer)
    case 7 => TextOf(7, c.url)
    case 8 => TextOf(8, c.pagename)
    case 9 => CountOf(9, c.purchaseNum)
    case 10 => TextOf(10, c.merchandising)
    case 11 =>
      var n := |c.purchaseIds| % 256;
      if n == 0 then None else Some(IdsField(11, c.purchaseIds[..n]))
    case _ => None
  }

  function TimeOf(id: Byte, t: Time): Option<Field> { if t == 0 then None else Some(TimeField(id, t)) }
  function CountOf(id: Byte, n: UInt32): Option<Field> { if n == 0 then None else Some(CountField(id, n)) }
  function TextOf(id: Byte, s: Text): Option<Field> { if s == [] then None else Some(TextField(id, s)) }

  function FieldsFrom(c: Cookie, id: Byte, saveLastHit: bool): seq<Field>
    decreases c, LAST_FIELD + 1 - id
  {
    if id > LAST_FIELD then []
    else
      var rest := FieldsFrom(c, id + 1, saveLastHit);
      match FieldOf(c, id, saveLastHit)
      case None => rest
      case Some(f) => [f] + rest
  }

  function Fields(c: Cookie, saveLastHit: bool): seq<Field> { FieldsFrom(c, 1, saveLastHit) }

  function GroupsOf(S: seq<Entry>): seq<Group> {
    if S == [] then []
    else
      var elems := Counted(S[0].elems);
      (if elems == [] then [] else [Group(S[0].id, |elems|, elems)]) + GroupsOf(S[1..])
  }

  /** What a serializer that writes additional fields `extra` after the known ones would produce. */
  function EncodeWith(c: Cookie, saveLastHit: bool, extra: seq<Byte>): seq<Byte> {
    Layout(Fields(c, saveLastHit), extra, GroupsOf(SetEntries(c.vars)))
  }

  /** `Serialize`. */
  function Encode(c: Cookie, saveLastHit: bool): seq<Byte> { EncodeWith(c, saveLastHit, []) }

  // ---- From a message to operations ----------------------------------------

  function UsesOf(ids: seq<Text>): seq<CookieOp> {
    if ids == [] then [] else [PurchaseId(ids[0])] + UsesOf(ids[1..])
  }

  function FieldOps(f: Field): seq<CookieOp> {
    match f
    case TimeField(id, t) =>
      [if id == 1 then FirstHit(t) else if id == 2 then LastHit(t)
       else if id == 3 then LastHitLocal(t) else LastPurchase(t)]
    case CountField(id, n) => [if id == 4 then VisitNum(n) else PurchaseNum(n)]
    case TextField(id, s) =>
      [if id == 6 then Referrer(s) else if id == 7 then Url(s)
       else if id == 8 then Pagename(s) else CookieOp.Merchandising(s)]
    case IdsField(_, ids) => UsesOf(ids)
  }

  function FieldsOps(fs: seq<Field>): seq<CookieOp> {
    if fs == [] then [] else FieldOps(fs[0]) + FieldsOps(fs[1..])
  }

  /**
   A lone element is set as LAST. Several are LINEAR: SetVar until one has been stored (it
   ignores empty values), AddLinearElement from then on.
   */
  function ElemOps(rid: RelationId, count: UInt32, elems: seq<RelVar>, stored: bool): seq<CookieOp> {
    if elems == [] then []
    else if stored then [AddElement(rid, elems[0])] + ElemOps(rid, count, elems[1..], true)
    else if count > 1 then
      [SetVariable(rid, elems[0], Linear, count)] + ElemOps(rid, count, elems[1..], elems[0].value != [])
    else
      [SetVariable(rid, elems[0], Last, count)] + ElemOps(rid, count, elems[1..], false)
  }

  function GroupsOps(gs: seq<Group>): seq<CookieOp> {
    if gs == [] then []
    else ElemOps(gs[0].rid, gs[0].count, gs[0].elems, false) + GroupsOps(gs[1..])
  }

  function MessageOps(m: Message): seq<CookieOp> { FieldsOps(m.fields) + GroupsOps(m.groups) }

  /** `Deserialize`: whether the buffer was accepted, and the cookie it leaves either way. */
  function Decode(c: Cookie, buf: seq<Byte>): (bool, Cookie) {
    (Parse(buf).ok, ApplyAll(c, MessageOps(Parse(buf))))
  }

  /** Whatever the bytes and whatever the verdict, the cookie's invariants and identity survive. */
  lemma DecodeKeepsInvariants(c: Cookie, buf: seq<Byte>)
    requires WellFormed(c)
    ensures WellFormed(Decode(c, buf).1) && Decode(c, buf).1.key == c.key
  {
    RunKeepsWellFormed(c, MessageOps(Parse(buf)));
  }

  lemma {:induction false} ApplyConcat(c: Cookie, s: seq<CookieOp>, t: seq<CookieOp>)
    ensures ApplyAll(c, s + t) == ApplyAll(ApplyAll(c, s), t)
    decreases |s|
  {
    if s == [] {
      assert s + t == t;
    } else {
      assert (s + t)[1..] == s[1..] + t;
      ApplyConcat(Apply(c, s[0]), s[1..], t);
    }
  }

  // ---- Replaying a cookie's own fields -------------------------------------

  /** `s` after the fields of `c` with tags from `id` on were replayed over it, apart from flags. */
  function Overlay(s: Cookie, c: Cookie, id: Byte, saveLastHit: bool): Cookie {
    s.(firstHit := if id <= 1 && c.firstHit != 0 then c.firstHit else s.firstHit,
       lastHit := if id <= 2 && saveLastHit && c.lastHit != 0 then c.lastHit else s.lastHit,
       lastHitLocal := if id <= 3 && c.lastHit != 0 then c.lastHit else s.lastHitLocal,
       visitNum := if id <= 4 && c.visitNum != 0 then c.visitNum else s.visitNum,
       lastPurchase := if id <= 5 && c.lastHit != 0 then c.lastHit else s.lastPurchase,
       referrer := if id <= 6 && c.referrer != [] then c.referrer else s.referrer,
       url := if id <= 7 && c.url != [] then c.url else s.url,
       pagename := if id <= 8 && c.pagename != [] then c.pagename else s.pagename,
       purchaseNum := if id <= 9 && c.purchaseNum != 0 then c.purchaseNum else s.purchaseNum,
       merchandising := if id <= 10 && c.merchandising != [] then c.merchandising else s.merchandising,
       purchaseIds := if id <= 11 then UseAll(s.purchaseIds, c.purchaseIds) else s.purchaseIds,
       flags := Unmodified(false))
  }

  function Plain(c: Cookie): Cookie { c.(flags := Unmodified(false)) }

  lemma {:induction false} ReplayUses(s: Cookie, ids: seq<Text>)
    ensures Plain(ApplyAll(s, UsesOf(ids))) == Plain(s.(purchaseIds := UseAll(s.purchaseIds, ids)))
    decreases |ids|
  {
    if ids != [] {
      assert UsesOf(ids)[1..] == UsesOf(ids[1..]);
      ReplayUses(Apply(s, PurchaseId(ids[0])), ids[1..]);
    }
  }

  function Replayed(s: Cookie, c: Cookie, id: Byte, saveLastHit: bool): Cookie {
    match FieldOf(c, id, saveLastHit)
    case None => s
    case Some(f) => ApplyAll(s, FieldOps(f))
  }

  /** Replaying one field of `c` moves the overlay on by one tag. */
  ghost predicate OverlayMoves(s: Cookie, c: Cookie, id: Byte, saveLastHit: bool) {
    id < 255 && Overlay(Replayed(s, c, id, saveLastHit), c, id + 1, saveLastHit) == Overlay(s, c, id, saveLastHit)
  }

  lemma ReplayHits(s: Cookie, c: Cookie, id: Byte, saveLastHit: bool)
    requires id in {1, 2}
    ensures OverlayMoves(s, c, id, saveLastHit)
  {
    hide UseAll;
    ApplyOne(s, if id == 1 then FirstHit(c.firstHit) else LastHit(c.lastHit));
  }

  lemma ReplayShadowedTimes(s: Cookie, c: Cookie, id: Byte, saveLastHit: bool)
    requires id in {3, 5}
    ensures OverlayMoves(s, c, id, saveLastHit)
  {
    hide UseAll;
    ApplyOne(s, if id == 3 then LastHitLocal(c.lastHit) else LastPurchase(c.lastHit));
  }

  lemma ReplayCount(s: Cookie, c: Cookie, id: Byte, saveLastHit: bool)
    requires id in {4, 9}
    ensures OverlayMoves(s, c, id, saveLastHit)
  {
    hide UseAll;
    if FieldOf(c, id, saveLastHit).Some? {
      ApplyOne(s, FieldOps(FieldOf(c, id, saveLastHit).value)[0]);
    }
  }

  lemma ReplayText(s: Cookie, c: Cookie, id: Byte, saveLastHit: bool)
    requires id in {6, 7, 8, 10}
    ensures OverlayMoves(s, c, id, saveLastHit)
  {
    hide UseAll;
    if id == 6 {
      ApplyOne(s, Referrer(c.referrer));
    } else if id == 7 {
      ApplyOne(s, Url(c.url));
    } else if id == 8 {
      ApplyOne(s, Pagename(c.pagename));
    } else {
      ApplyOne(s, CookieOp.Merchandising(c.merchandising));
    }
  }

  lemma ReplayIds(s: Cookie, c: Cookie, saveLastHit: bool)
    requires |c.purchaseIds| <= NUM_SAVED_PURCHASE_IDS
    ensures OverlayMoves(s, c, 11, saveLastHit)
  {
    hide UseAll, Use, UsesOf;
    EmptyUse(s.purchaseIds);
    ReplayUses(s, c.purchaseIds);
    assert c.purchaseIds[..|c.purchaseIds|] == c.purchaseIds;
  }

  lemma ReplayField(s: Cookie, c: Cookie, id: Byte, saveLastHit: bool)
    requires 1 <= id <= LAST_FIELD && |c.purchaseIds| <= NUM_SAVED_PURCHASE_IDS
    ensures OverlayMoves(s, c, id, saveLastHit)
  {
    hide OverlayMoves;
    if id == 11 { ReplayIds(s, c, saveLastHit); }
    else if id in {1, 2} { ReplayHits(s, c, id, saveLastHit); }
    else if id in {3, 5} { ReplayShadowedTimes(s, c, id, saveLastHit); }
    else if id in {4, 9} { ReplayCount(s, c, id, saveLastHit); }
    else { ReplayText(s, c, id, saveLastHit); }
  }

  lemma {:induction false} EmptyUse(ids: seq<Text>)
    ensures UseAll(ids, []) == ids
  {
  }

  lemma {:induction false} ApplyOne(s: Cookie, op: CookieOp)
    ensures ApplyAll(s, [op]) == Apply(s, op)
  {
    assert [op][1..] == [];
  }

  lemma ReplaySplit(s: Cookie, c: Cookie, id: Byte, saveLastHit: bool)
    requires 1 <= id <= LAST_FIELD
    ensures ApplyAll(s, FieldsOps(FieldsFrom(c, id, saveLastHit)))
         == ApplyAll(Replayed(s, c, id, saveLastHit), FieldsOps(FieldsFrom(c, id + 1, saveLastHit)))
  {
    hide FieldOf, FieldOps, Apply;
    match FieldOf(c, id, saveLastHit)
    case None =>
    case Some(f) =>
      var rest := FieldsFrom(c, id + 1, saveLastHit);
      assert ([f] + rest)[1..] == rest;
      ApplyConcat(s, FieldOps(f), FieldsOps(rest));
  }

  lemma {:induction false} ReplayFields(s: Cookie, c: Cookie, id: Byte, saveLastHit: bool)
    requires 1 <= id <= LAST_FIELD + 1 && |c.purchaseIds| <= NUM_SAVED_PURCHASE_IDS
    ensures Plain(ApplyAll(s, FieldsOps(FieldsFrom(c, id, saveLastHit)))) == Overlay(s, c, id, saveLastHit)
    decreases LAST_FIELD + 1 - id
  {
    hide Overlay, Replayed, FieldsFrom, FieldsOps, ApplyAll, Plain;
    if id > LAST_FIELD {
      ReplayNothing(s, c, saveLastHit);
    } else {
      ReplayField(s, c, id, saveLastHit);
      ReplaySplit(s, c, id, saveLastHit);
      ReplayFields(Replayed(s, c, id, saveLastHit), c, id + 1, saveLastHit);
    }
  }

  lemma ReplayNothing(s: Cookie, c: Cookie, saveLastHit: bool)
    ensures Plain(ApplyAll(s, FieldsOps(FieldsFrom(c, LAST_FIELD + 1, saveLastHit))))
         == Overlay(s, c, LAST_FIELD + 1, saveLastHit)
  {
  }

  // ---- Replaying a cookie's own variables ----------------------------------

  /** A variable's elements from the first non-empty value on. */
  function Trim(elems: seq<RelVar>): (r: seq<RelVar>)
    ensures |r| <= |elems| && (r != [] ==> r[0].value != [])
    ensures elems == [] || elems[0].value != [] ==> r == elems
  {
    if elems == [] || elems[0].value != [] then elems else Trim(elems[1..])
  }

  /** The entries that come back: cut to their 32-bit count, trimmed, and gone when nothing is left. */
  function Stored(S: seq<Entry>): seq<Entry> {
    if S == [] then []
    else
      var elems := Trim(Counted(S[0].elems));
      (if elems == [] then [] else [Entry(S[0].id, elems)]) + Stored(S[1..])
  }

  predicate Below(L: seq<Entry>, rid: RelationId) { forall e | e in L :: e.id < rid }

  lemma PutAtEnd(L: seq<Entry>, rid: RelationId, xs: seq<RelVar>, elems: seq<RelVar>)
    requires Below(L, rid)
    ensures Elems(L, rid) == [] && Clear(L, rid) == L && Put(L, rid, elems) == L + [Entry(rid, elems)]
    ensures var M := L + [Entry(rid, xs)];
      Elems(M, rid) == xs && Put(M, rid, elems) == L + [Entry(rid, elems)]
  {
    PosAtEnd(L, rid, []);
    PosAtEnd(L, rid, [Entry(rid, xs)]);
    assert L + [] == L;
  }

  lemma {:induction false} PosAtEnd(L: seq<Entry>, rid: RelationId, rest: seq<Entry>)
    requires Below(L, rid) && (rest != [] ==> rest[0].id >= rid)
    ensures Pos(L + rest, rid) == |L|
  {
    if L == [] {
      assert L + rest == rest;
    } else {
      assert (L + rest)[1..] == L[1..] + rest;
      PosAtEnd(L[1..], rid, rest);
    }
  }

  lemma ReplayAdd(s: Cookie, L: seq<Entry>, rid: RelationId, xs: seq<RelVar>, e: RelVar)
    requires Below(L, rid) && s.vars == L + [Entry(rid, xs)]
    ensures Apply(s, AddElement(rid, e)) == s.(vars := L + [Entry(rid, xs + [e])], flags := Touched(s.flags))
  {
    PutAtEnd(L, rid, xs, xs + [e]);
  }

  lemma {:induction false} ReplayAdds(s: Cookie, L: seq<Entry>, rid: RelationId, count: UInt32,
                                      xs: seq<RelVar>, elems: seq<RelVar>)
    requires Below(L, rid) && s.vars == L + [Entry(rid, xs)]
    ensures Plain(ApplyAll(s, ElemOps(rid, count, elems, true))) == Plain(s.(vars := L + [Entry(rid, xs + elems)]))
    decreases |elems|
  {
    if elems == [] {
      assert xs + elems == xs;
    } else {
      hide Below, Apply;
      var ops := ElemOps(rid, count, elems, true);
      assert ops[1..] == ElemOps(rid, count, elems[1..], true);
      ReplayAdd(s, L, rid, xs, elems[0]);
      ReplayAdds(Apply(s, ops[0]), L, rid, count, xs + [elems[0]], elems[1..]);
      Assoc(xs, [elems[0]], elems[1..]);
      assert [elems[0]] + elems[1..] == elems;
    }
  }

  lemma {:induction false} ReplayElems(s: Cookie, rid: RelationId, count: UInt32, elems: seq<RelVar>)
    requires Below(s.vars, rid) && (count <= 1 ==> |elems| <= 1)
    ensures var kept := Trim(elems);
      Plain(ApplyAll(s, ElemOps(rid, count, elems, false)))
      == if kept == [] then Plain(s) else Plain(s.(vars := s.vars + [Entry(rid, kept)]))
    decreases |elems|
  {
    if elems != [] {
      var e, ops := elems[0], ElemOps(rid, count, elems, false);
      var s1 := Apply(s, ops[0]);
      PutAtEnd(s.vars, rid, [], [e]);
      assert ([] + [BLANK])[0 := e] == [e];
      assert ops[1..] == ElemOps(rid, count, elems[1..], count > 1 && e.value != []);
      if e.value == [] {
        assert s1 == s;
        ReplayElems(s, rid, count, elems[1..]);
      } else {
        assert s1.vars == s.vars + [Entry(rid, [e])];
        assert [e] + elems[1..] == elems;
        if count > 1 {
          ReplayAdds(s1, s.vars, rid, count, [e], elems[1..]);
        } else {
          assert elems == [e] && ops[1..] == [];
        }
      }
    }
  }

  lemma {:induction false} ReplayGroups(s: Cookie, S: seq<Entry>)
    requires Ascending(S) && (S != [] ==> Below(s.vars, S[0].id))
    ensures Plain(ApplyAll(s, GroupsOps(GroupsOf(S)))) == Plain(s.(vars := s.vars + Stored(S)))
    decreases |S|
  {
    if S == [] {
      assert s.vars + Stored(S) == s.vars;
    } else {
      var rid, elems, rest := S[0].id, Counted(S[0].elems), GroupsOf(S[1..]);
      if elems == [] {
        ReplayGroups(s, S[1..]);
        assert [] + rest == rest && [] + Stored(S[1..]) == Stored(S[1..]);
      } else {
        ReplayElems(s, rid, |elems|, elems);
        ReplayGroup(s, Group(rid, |elems|, elems), rest);
        var kept := if Trim(elems) == [] then [] else [Entry(rid, Trim(elems))];
        var s1 := ApplyAll(s, ElemOps(rid, |elems|, elems, false));
        assert s1.vars == s.vars + kept;
        ReplayGroups(s1, S[1..]);
        Assoc(s.vars, kept, Stored(S[1..]));
      }
    }
  }

  lemma {:induction false} ReplayGroup(s: Cookie, g: Group, rest: seq<Group>)
    ensures ApplyAll(s, GroupsOps([g] + rest))
         == ApplyAll(ApplyAll(s, ElemOps(g.rid, g.count, g.elems, false)), GroupsOps(rest))
  {
    assert ([g] + rest)[1..] == rest;
    ApplyConcat(s, ElemOps(g.rid, g.count, g.elems, false), GroupsOps(rest));
  }
}
