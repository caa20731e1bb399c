/**
 `VCookieStore::Deserialize`. It never reads past the end of the buffer, it terminates on
 every buffer, and it leaves the cookie as `Decode` says, also when it gives up half way.
 */
module Deserializer {
  import opened Bytes
  import opened VarIndex
  import opened Cookies
  import opened VCookies
  import opened Wire
  import opened Codec

  // ---- Fields --------------------------------------------------------------

  /** What is left to parse stands for the same operations on the cookie as it is now. */
  ghost predicate FieldsLeft(c0: Cookie, P0: Parsed<Field>, c: Cookie, P: Parsed<Field>) {
    P0.ok == P.ok && P0.pos == P.pos && ApplyAll(c0, FieldsOps(P0.items)) == ApplyAll(c, FieldsOps(P.items))
  }

  lemma {:induction false} OneFieldDone(c: Cookie, f: Field, P: Parsed<Field>)
    ensures FieldsLeft(c, P.(items := [f] + P.items), ApplyAll(c, FieldOps(f)), P)
  {
    assert ([f] + P.items)[1..] == P.items;
    ApplyConcat(c, FieldOps(f), FieldsOps(P.items));
  }

  method SetTime(c: VCookie, id: Byte, t: Time)
    requires c.Valid() && KindOf(id).TimeKind?
    modifies c
    ensures c.Valid() && c.Value() == ApplyAll(old(c.Value()), FieldOps(TimeField(id, t)))
  {
    ApplyOne(c.Value(), FieldOps(TimeField(id, t))[0]);
    hide Apply, Sorts, Listing;
    if id == 1 {
      c.SetFirstHitTimeGMT(t);
    } else if id == 2 {
      c.SetLastHitTimeGMT(t);
    } else if id == 3 {
      c.SetLastHitTimeVisitorLocal(t);
    } else {
      c.SetLastPurchaseTimeGMT(t);
    }
  }

  method SetCount(c: VCookie, id: Byte, n: UInt32)
    requires c.Valid() && KindOf(id).CountKind?
    modifies c
    ensures c.Valid() && c.Value() == ApplyAll(old(c.Value()), FieldOps(CountField(id, n)))
  {
    ApplyOne(c.Value(), FieldOps(CountField(id, n))[0]);
    hide Apply, Sorts, Listing;
    if id == 4 {
      c.SetLastVisitNum(n);
    } else {
      c.SetLastPurchaseNum(n);
    }
  }

  method SetText(c: VCookie, id: Byte, s: Text)
    requires c.Valid() && KindOf(id).TextKind?
    modifies c
    ensures c.Valid() && c.Value() == ApplyAll(old(c.Value()), FieldOps(TextField(id, s)))
  {
    ApplyOne(c.Value(), FieldOps(TextField(id, s))[0]);
    hide Apply, Sorts, Listing;
    if id == 6 {
      c.SetFirstHitReferrer(s);
    } else if id == 7 {
      c.SetFirstHitUrl(s);
    } else if id == 8 {
      c.SetFirstHitPagename(s);
    } else {
      c.SetMerchandising(s);
    }
  }

  method DecodeIds(c: VCookie, buf: seq<Byte>, start: nat, count: nat) returns (ok: bool, b: nat)
    requires c.Valid()
    modifies c
    ensures var p := ParseTexts(buf, start, count);
      && c.Valid() && ok == p.ok && (ok ==> b == p.pos)
      && c.Value() == ApplyAll(old(c.Value()), UsesOf(p.items))
  {
    hide Apply, Sorts, Listing, ReadText;
    b := start;
    for i := 0 to count
      invariant c.Valid()
      invariant var p, q := ParseTexts(buf, start, count), ParseTexts(buf, b, count - i);
        && p.ok == q.ok && p.pos == q.pos
        && ApplyAll(old(c.Value()), UsesOf(p.items)) == ApplyAll(c.Value(), UsesOf(q.items))
    {
      var s := ReadText(buf, b);
      if s.None? {
        return false, b;
      }
      OneUseDone(c.Value(), s.value, ParseTexts(buf, b + |s.value| + 1, count - i - 1).items);
      var _ := c.SetPurchaseId(s.value);
      b := b + |s.value| + 1;
    }
    return true, b;
  }

  lemma {:induction false} OneUseDone(c: Cookie, id: Text, rest: seq<Text>)
    ensures ApplyAll(c, UsesOf([id] + rest)) == ApplyAll(Apply(c, PurchaseId(id)), UsesOf(rest))
  {
    assert ([id] + rest)[1..] == rest;
    assert ([PurchaseId(id)] + UsesOf(rest))[1..] == UsesOf(rest);
  }

  /** The payload of one field, read and set. */
  method DecodePayload(c: VCookie, buf: seq<Byte>, start: nat, id: Byte) returns (ok: bool, b: nat)
    requires c.Valid() && 1 <= id <= LAST_FIELD
    modifies c
    ensures var p := ParsePayload(buf, start, id);
      && c.Valid() && ok == p.ok && (ok ==> b == p.pos)
      && (ok ==> |p.items| == 1)
      && c.Value() == ApplyAll(old(c.Value()), if p.items == [] then [] else FieldOps(p.items[0]))
      && |p.items| <= 1
  {
    hide Apply, Sorts, Listing, ReadText, ReadInt, ParseTexts;
    Widths();
    b := start;
    match KindOf(id)
    case TimeKind =>
      var t := ReadInt(buf, b, 8);
      if t.None? { return false, b; }
      SetTime(c, id, BitsTime(t.value));
      return true, b + 8;
    case CountKind =>
      var n := ReadInt(buf, b, 4);
      if n.None? { return false, b; }
      SetCount(c, id, n.value);
      return true, b + 4;
    case TextKind =>
      var s := ReadText(buf, b);
      if s.None? { return false, b; }
      SetText(c, id, s.value);
      return true, b + |s.value| + 1;
    case IdsKind =>
      var n := ReadInt(buf, b, 1);
      if n.None? { return false, b; }
      ok, b := DecodeIds(c, buf, b + 1, n.value);
  }

  /** One tagged field: if the tag read last is `id`, its payload and the tag after it. */
  method DecodeField(c: VCookie, buf: seq<Byte>, start: nat, tag: Byte, id: Byte)
    returns (ok: bool, b: nat, next: Byte)
    requires c.Valid() && 1 <= id <= LAST_FIELD
    modifies c
    ensures c.Valid()
    ensures var P := ParseFields(buf, start, tag, id);
      if ok then FieldsLeft(old(c.Value()), P, c.Value(), ParseFields(buf, b, next, id + 1))
      else !P.ok && c.Value() == ApplyAll(old(c.Value()), FieldsOps(P.items))
  {
    hide Sorts, Listing, ParsePayload, Apply, FieldOps, ReadInt;
    if tag != id {
      return true, start, tag;
    }
    ghost var p := ParsePayload(buf, start, id);
    ok, b := DecodePayload(c, buf, start, id);
    if !ok {
      Alone(old(c.Value()), p.items);
      return false, b, tag;
    }
    Alone(old(c.Value()), p.items);
    Widths();
    var n := ReadInt(buf, b, 1);
    if n.None? {
      return false, b, tag;
    }
    next := n.value;
    b := b + 1;
    assert p.items == [p.items[0]];
    OneFieldDone(old(c.Value()), p.items[0], ParseFields(buf, b, next, id + 1));
  }

  lemma {:induction false} Alone(c: Cookie, fs: seq<Field>)
    requires |fs| <= 1
    ensures FieldsOps(fs) == if fs == [] then [] else FieldOps(fs[0])
  {
    if fs != [] {
      assert fs[1..] == [];
      assert FieldOps(fs[0]) + [] == FieldOps(fs[0]);
    }
  }

  /** Tags 1 to 4. */
  method DecodeTraffic(c: VCookie, buf: seq<Byte>, start: nat, tag: Byte) returns (ok: bool, b: nat, next: Byte)
    requires c.Valid()
    modifies c
    ensures c.Valid()
    ensures var P := ParseFields(buf, start, tag, 1);
      if ok then FieldsLeft(old(c.Value()), P, c.Value(), ParseFields(buf, b, next, 5))
      else !P.ok && c.Value() == ApplyAll(old(c.Value()), FieldsOps(P.items))
  {
    hide Sorts, Listing, ParseFields, FieldsOps, ApplyAll;
    b, next := start, tag;
    ok, b, next := DecodeField(c, buf, b, next, 1);
    if !ok { return; }
    ok, b, next := DecodeField(c, buf, b, next, 2);
    if !ok { return; }
    ok, b, next := DecodeField(c, buf, b, next, 3);
    if !ok { return; }
    ok, b, next := DecodeField(c, buf, b, next, 4);
    if !ok { return; }
  }

  /** Tags 5 to 8. */
  method DecodeFirstHit(c: VCookie, buf: seq<Byte>, start: nat, tag: Byte) returns (ok: bool, b: nat, next: Byte)
    requires c.Valid()
    modifies c
    ensures c.Valid()
    ensures var P := ParseFields(buf, start, tag, 5);
      if ok then FieldsLeft(old(c.Value()), P, c.Value(), ParseFields(buf, b, next, 9))
      else !P.ok && c.Value() == ApplyAll(old(c.Value()), FieldsOps(P.items))
  {
    hide Sorts, Listing, ParseFields, FieldsOps, ApplyAll;
    b, next := start, tag;
    ok, b, next := DecodeField(c, buf, b, next, 5);
    if !ok { return; }
    ok, b, next := DecodeField(c, buf, b, next, 6);
    if !ok { return; }
    ok, b, next := DecodeField(c, buf, b, next, 7);
    if !ok { return; }
    ok, b, next := DecodeField(c, buf, b, next, 8);
    if !ok { return; }
  }

  /** Tags 9 to 11. */
  method DecodePurchases(c: VCookie, buf: seq<Byte>, start: nat, tag: Byte) returns (ok: bool, b: nat, next: Byte)
    requires c.Valid()
    modifies c
    ensures c.Valid()
    ensures var P := ParseFields(buf, start, tag, 9);
      if ok then FieldsLeft(old(c.Value()), P, c.Value(), ParseFields(buf, b, next, 12))
      else !P.ok && c.Value() == ApplyAll(old(c.Value()), FieldsOps(P.items))
  {
    hide Sorts, Listing, ParseFields, FieldsOps, ApplyAll;
    b, next := start, tag;
    ok, b, next := DecodeField(c, buf, b, next, 9);
    if !ok { return; }
    ok, b, next := DecodeField(c, buf, b, next, 10);
    if !ok { return; }
    ok, b, next := DecodeField(c, buf, b, next, 11);
    if !ok { return; }
  }

  /** All known tags, each in its turn. */
  method DecodeFields(c: VCookie, buf: seq<Byte>, start: nat, tag: Byte) returns (ok: bool, b: nat)
    requires c.Valid()
    modifies c
    ensures var P := ParseFields(buf, start, tag, 1);
      c.Valid() && ok == P.ok && (ok ==> b == P.pos) && c.Value() == ApplyAll(old(c.Value()), FieldsOps(P.items))
  {
    hide Sorts, Listing, ParseFields, FieldsOps, ApplyAll;
    var next;
    ok, b, next := DecodeTraffic(c, buf, start, tag);
    if !ok { return; }
    ok, b, next := DecodeFirstHit(c, buf, b, next);
    if !ok { return; }
    ok, b, next := DecodePurchases(c, buf, b, next);
    if !ok { return; }
    NoMoreFields(c.Value(), buf, b, next);
  }

  lemma NoMoreFields(c: Cookie, buf: seq<Byte>, pos: nat, next: Byte)
    ensures ParseFields(buf, pos, next, LAST_FIELD + 1) == Parsed(true, [], pos)
    ensures ApplyAll(c, FieldsOps([])) == c
  {
  }

  // ---- Variables -----------------------------------------------------------

  ghost predicate ElemsLeft(c0: Cookie, P0: Parsed<RelVar>, c: Cookie, P: Parsed<RelVar>,
                            rid: RelationId, count: UInt32, stored: bool)
  {
    && P0.ok == P.ok && P0.pos == P.pos
    && ApplyAll(c0, ElemOps(rid, count, P0.items, false)) == ApplyAll(c, ElemOps(rid, count, P.items, stored))
  }

  lemma {:induction false} OneElemDone(c: Cookie, rid: RelationId, count: UInt32, e: RelVar,
                                       rest: seq<RelVar>, stored: bool)
    requires stored ==> count > 1
    ensures var alloc := if count > 1 then Linear else Last;
      ApplyAll(c, ElemOps(rid, count, [e] + rest, stored))
      == ApplyAll(Apply(c, if stored then AddElement(rid, e) else SetVariable(rid, e, alloc, count)),
                  ElemOps(rid, count, rest, stored || (count > 1 && e.value != [])))
  {
    var ops := ElemOps(rid, count, [e] + rest, stored);
    assert ([e] + rest)[1..] == rest;
    assert ops[1..] == ElemOps(rid, count, rest, stored || (count > 1 && e.value != []));
  }

  /** The elements of one variable. `vid` is the handle of the variable once an element has been stored. */
  method DecodeElems(c: VCookie, buf: seq<Byte>, start: nat, rid: RelationId, count: UInt32) returns (ok: bool, b: nat)
    requires c.Valid()
    modifies c
    ensures var p := ParseElems(buf, start, count);
      && c.Valid() && ok == p.ok && (ok ==> b == p.pos)
      && c.Value() == ApplyAll(old(c.Value()), ElemOps(rid, count, p.items, false))
  {
    hide Sorts, Listing, Apply, ReadElem;
    b := start;
    var vid: VarId := VAR_NOT_SET;
    for i := 0 to count
      invariant c.Valid()
      invariant ElemsLeft(old(c.Value()), ParseElems(buf, start, count), c.Value(), ParseElems(buf, b, count - i),
                          rid, count, vid != VAR_NOT_SET)
      invariant vid != VAR_NOT_SET ==> count > 1 && vid < |c.relVar| && c.relVar[vid].relationId == rid
    {
      var elem := ReadElem(buf, b);
      if elem.None? {
        return false, b;
      }
      var e := elem.value;
      b := b + |e.value| + 10;
      OneElemDone(c.Value(), rid, count, e, ParseElems(buf, b, count - i - 1).items, vid != VAR_NOT_SET);
      if vid == VAR_NOT_SET {
        vid := c.SetVar(rid, e.value, e.timestamp, e.revision, if count > 1 then Linear else Last, count);
      } else {
        c.AddLinearElement(vid, e.value, e.timestamp, e.revision);
      }
    }
    return true, b;
  }

  ghost predicate GroupsLeft(c0: Cookie, P0: Parsed<Group>, c: Cookie, P: Parsed<Group>) {
    P0.ok == P.ok && ApplyAll(c0, GroupsOps(P0.items)) == ApplyAll(c, GroupsOps(P.items))
  }

  /** The variable section, from the first relation id to the sentinel. */
  method DecodeGroups(c: VCookie, buf: seq<Byte>, start: nat) returns (ok: bool)
    requires c.Valid()
    modifies c
    ensures var P := ParseGroups(buf, start);
      c.Valid() && ok == P.ok && c.Value() == ApplyAll(old(c.Value()), GroupsOps(P.items))
  {
    hide Sorts, Listing, ReadInt, ElemOps, GroupsOps, ApplyAll;
    Widths();
    NoGroups(c.Value());
    var b := start;
    var rid := ReadInt(buf, b, 2);
    if rid.None? {
      return false;
    }
    while rid.value != INVALID_RID
      invariant c.Valid() && rid.Some? && rid == ReadInt(buf, b, 2)
      invariant GroupsLeft(old(c.Value()), ParseGroups(buf, start), c.Value(), ParseGroups(buf, b))
      decreases |buf| - b
    {
      var count := ReadInt(buf, b + 2, 4);
      NoGroups(c.Value());
      if count.None? {
        return false;
      }
      ghost var p := ParseElems(buf, b + 6, count.value);
      ghost var g := Group(rid.value, count.value, p.items);
      ParseElemsAdvances(buf, b + 6, count.value);
      ReplayGroup(c.Value(), g, if p.ok then ParseGroups(buf, p.pos).items else []);
      var good, next := DecodeElems(c, buf, b + 6, rid.value, count.value);
      NoGroups(c.Value());
      if !good {
        assert [g] + [] == [g];
        return false;
      }
      b := next;
      rid := ReadInt(buf, b, 2);
      if rid.None? {
        return false;
      }
    }
    NoGroups(c.Value());
    return true;
  }

  lemma {:induction false} NoGroups(c: Cookie)
    ensures ApplyAll(c, GroupsOps([])) == c
  {
  }

  // ---- The whole buffer ----------------------------------------------------

  /** An empty buffer is outside the contract: the source takes the address of its first byte. */
  method Deserialize(c: VCookie, buffer: seq<Byte>) returns (ok: bool)
    requires c.Valid() && buffer != []
    modifies c
    ensures c.Valid()
    ensures (ok, c.Value()) == Decode(old(c.Value()), buffer)
  {
    hide Sorts, Listing, ParseFields, ParseGroups, FieldsOps, GroupsOps;
    NothingToDo(c.Value());
    Widths();
    var b := 0;
    var version, readCompatible, flag: Byte := *, *, *;  // left as they are when the buffer is too short
    if ReadInt(buffer, b, 1).Some? { version, b := buffer[b], b + 1; }
    if ReadInt(buffer, b, 1).Some? { readCompatible, b := buffer[b], b + 1; }
    if ReadInt(buffer, b, 1).Some? { flag, b := buffer[b], b + 1; }
    if readCompatible > VC_SERIAL_VERSION {
      return false;
    }
    var offset := ReadInt(buffer, b, 4);
    if offset.None? {
      return false;
    }
    b := b + 4;
    if ReadInt(buffer, b, 1).None? {
      return false;
    }
    var next := buffer[b];
    b := b + 1;
    ghost var f := ParseFields(buffer, b, next, 1);
    ok, b := DecodeFields(c, buffer, b, next);
    NothingToDo(c.Value());
    if !ok {
      return false;
    }
    if b > offset.value {
      return false;
    }
    ghost var g := ParseGroups(buffer, offset.value);
    ApplyConcat(old(c.Value()), FieldsOps(f.items), GroupsOps(g.items));
    ok := DecodeGroups(c, buffer, offset.value);
  }

  lemma {:induction false} NothingToDo(c: Cookie)
    ensures ApplyAll(c, []) == c && FieldsOps([]) == [] && GroupsOps([]) == []
    ensures forall fs :: FieldsOps(fs) + [] == FieldsOps(fs)
  {
  }
}
