/**
 `VCookieStore::Serialize` and `VCookieStore::Deserialize`: the code that walks a cookie and
 a buffer, shown to write `Encode` of the cookie's value and to do what `Decode` says.
 */
module Serializer {
  import opened Bytes
  import opened VarIndex
  import opened VarProperties
  import opened Cookies
  import opened VCookies
  import opened Wire
  import opened Codec

  // ---- Serialize -----------------------------------------------------------

  function PrintOption(f: Option<Field>): seq<Byte> {
    match f
    case None => []
    case Some(f) => PrintField(f)
  }

  /** The fields of `c` with tags up to `id`. */
  function Written(c: Cookie, id: Byte, saveLastHit: bool): seq<Byte>
    decreases c, id
  {
    if id == 0 then [] else Written(c, id - 1, saveLastHit) + PrintOption(FieldOf(c, id, saveLastHit))
  }

  lemma {:induction false} WrittenUpTo(c: Cookie, id: Byte, saveLastHit: bool)
    requires id <= LAST_FIELD
    ensures PrintFields(Fields(c, saveLastHit))
         == Written(c, id, saveLastHit) + PrintFields(FieldsFrom(c, id + 1, saveLastHit))
  {
    hide FieldOf, PrintField, PrintFields, PrintOption, FieldsFrom;
    if id == 0 {
      assert [] + PrintFields(Fields(c, saveLastHit)) == PrintFields(Fields(c, saveLastHit));
    } else {
      WrittenUpTo(c, id - 1, saveLastHit);
      FirstFieldPrinted(c, id, saveLastHit);
      Assoc(Written(c, id - 1, saveLastHit), PrintOption(FieldOf(c, id, saveLastHit)),
            PrintFields(FieldsFrom(c, id + 1, saveLastHit)));
    }
  }

  lemma FirstFieldPrinted(c: Cookie, id: Byte, saveLastHit: bool)
    requires 1 <= id <= LAST_FIELD
    ensures PrintFields(FieldsFrom(c, id, saveLastHit))
         == PrintOption(FieldOf(c, id, saveLastHit)) + PrintFields(FieldsFrom(c, id + 1, saveLastHit))
  {
    hide FieldOf, PrintField;
    var rest := FieldsFrom(c, id + 1, saveLastHit);
    if FieldOf(c, id, saveLastHit).Some? {
      assert ([FieldOf(c, id, saveLastHit).value] + rest)[1..] == rest;
    } else {
      assert [] + PrintFields(rest) == PrintFields(rest);
    }
  }

  method AddTime(buffer: seq<Byte>, id: Byte, t: Time) returns (b: seq<Byte>)
    ensures b == buffer + PrintOption(TimeOf(id, t))
  {
    b := buffer;
    if t != 0 {
      b := b + [id];
      b := b + LE(TimeBits(t), 8);
    }
  }

  method AddCount(buffer: seq<Byte>, id: Byte, n: UInt32) returns (b: seq<Byte>)
    ensures b == buffer + PrintOption(CountOf(id, n))
  {
    b := buffer;
    if n != 0 {
      b := b + [id];
      b := b + LE(n, 4);
    }
  }

  method AddText(buffer: seq<Byte>, id: Byte, s: Text) returns (b: seq<Byte>)
    ensures b == buffer + PrintOption(TextOf(id, s))
  {
    b := buffer;
    if s != [] {
      b := b + [id];
      b := b + (s + [0]);
    }
  }

  lemma {:induction false} PrintIds(ids: seq<Text>)
    ensures PrintOption(Some(IdsField(11, ids))) == [11] + [|ids| % 256] + PrintTexts(ids)
  {
  }

  lemma PrintTextsStep(all: seq<Text>, i: nat)
    requires i < |all|
    ensures PrintTexts(all[i..]) == all[i] + [0] + PrintTexts(all[i + 1..])
  {
    assert all[i..][0] == all[i] && all[i..][1..] == all[i + 1..];
  }

  method AddPurchaseIds(buffer: seq<Byte>, ids: seq<Text>) returns (b: seq<Byte>)
    ensures var n := |ids| % 256;
      b == buffer + PrintOption(if n == 0 then None else Some(IdsField(11, ids[..n])))
  {
    b := buffer;
    var count := |ids| % 256;
    if count > 0 {
      hide PrintOption;
      PrintIds(ids[..count]);
      b := b + [11];
      b := b + [count];
      ghost var start, all := b, ids[..count];
      for i := 0 to count
        invariant b + PrintTexts(all[i..]) == start + PrintTexts(all)
      {
        PrintTextsStep(all, i);
        Assoc(b, ids[i] + [0], PrintTexts(all[i + 1..]));
        b := b + (ids[i] + [0]);
      }
      assert b + [] == b;
    }
  }

  lemma WrittenStep(buffer: seq<Byte>, b: seq<Byte>, c: Cookie, id: Byte, saveLastHit: bool)
    requires 1 <= id <= LAST_FIELD && b == buffer + Written(c, id - 1, saveLastHit)
    ensures b + PrintOption(FieldOf(c, id, saveLastHit)) == buffer + Written(c, id, saveLastHit)
  {
    Assoc(buffer, Written(c, id - 1, saveLastHit), PrintOption(FieldOf(c, id, saveLastHit)));
  }

  /** Tags 1 to 5. */
  method SerializeTraffic(c: VCookie, buffer: seq<Byte>, saveLastHit: bool) returns (b: seq<Byte>)
    requires c.Valid()
    ensures b == buffer + Written(c.Value(), 5, saveLastHit)
  {
    hide Sorts, Listing, PrintField, TimeOf, CountOf, PrintOption;
    ghost var v := c.Value();
    b := buffer;
    WrittenStep(buffer, b, v, 1, saveLastHit);
    b := AddTime(b, 1, c.firstHitTimeGMT);
    WrittenStep(buffer, b, v, 2, saveLastHit);
    if saveLastHit {
      b := AddTime(b, 2, c.lastHitTimeGMT);
    } else {
      NothingWritten(b);
    }
    WrittenStep(buffer, b, v, 3, saveLastHit);
    b := AddTime(b, 3, c.GetLastHitTimeVisitorLocal());
    WrittenStep(buffer, b, v, 4, saveLastHit);
    b := AddCount(b, 4, c.lastVisitNum);
    WrittenStep(buffer, b, v, 5, saveLastHit);
    b := AddTime(b, 5, c.GetLastPurchaseTimeGMT());
  }

  lemma NothingWritten(b: seq<Byte>)
    ensures b + PrintOption(None) == b
  {
  }

  /** Tags 6 to 11. */
  method SerializeEcommerce(c: VCookie, start: seq<Byte>, ghost buffer: seq<Byte>, saveLastHit: bool)
    returns (b: seq<Byte>)
    requires c.Valid() && start == buffer + Written(c.Value(), 5, saveLastHit)
    ensures b == buffer + Written(c.Value(), 11, saveLastHit)
  {
    hide Sorts, Listing, PrintField, TextOf, CountOf, PrintOption;
    ghost var v := c.Value();
    b := start;
    WrittenStep(buffer, b, v, 6, saveLastHit);
    b := AddText(b, 6, c.firstHitReferrer);
    WrittenStep(buffer, b, v, 7, saveLastHit);
    b := AddText(b, 7, c.firstHitPageUrl);
    WrittenStep(buffer, b, v, 8, saveLastHit);
    b := AddText(b, 8, c.firstHitPagename);
    WrittenStep(buffer, b, v, 9, saveLastHit);
    b := AddCount(b, 9, c.lastPurchaseNum);
    WrittenStep(buffer, b, v, 10, saveLastHit);
    b := AddText(b, 10, c.merchandising);
    WrittenStep(buffer, b, v, 11, saveLastHit);
    b := AddPurchaseIds(b, c.purchaseIds);
  }

  /** The tagged fields, in the order of their tags. */
  method SerializeFields(c: VCookie, buffer: seq<Byte>, saveLastHit: bool) returns (b: seq<Byte>)
    requires c.Valid()
    ensures b == buffer + PrintFields(Fields(c.Value(), saveLastHit))
  {
    b := SerializeTraffic(c, buffer, saveLastHit);
    b := SerializeEcommerce(c, b, buffer, saveLastHit);
    WrittenUpTo(c.Value(), 11, saveLastHit);
    NothingAfterLast(c.Value(), saveLastHit);
  }

  lemma {:induction false} NothingAfterLast(c: Cookie, saveLastHit: bool)
    ensures PrintFields(FieldsFrom(c, LAST_FIELD + 1, saveLastHit)) == []
    ensures Written(c, 11, saveLastHit) + [] == Written(c, 11, saveLastHit)
  {
  }

  method AddElems(c: VCookie, vid: VarId, count: UInt32, buffer: seq<Byte>) returns (b: seq<Byte>)
    requires c.Valid() && (count > 0 ==> vid < |c.relVar| && count <= |c.relVar[vid].elems|)
    ensures b == buffer + if count == 0 then [] else PrintElems(c.relVar[vid].elems[..count])
  {
    b := buffer;
    ghost var all := if count == 0 then [] else c.relVar[vid].elems[..count];
    for i := 0 to count
      invariant b + PrintElems(all[i..]) == buffer + PrintElems(all)
    {
      hide PrintElem;
      var rv := c.GetVarById(vid, i);
      assert rv.value == all[i];
      assert all[i..][0] == all[i] && all[i..][1..] == all[i + 1..];
      Assoc(b, PrintElem(all[i]), PrintElems(all[i + 1..]));
      b := b + PrintElem(rv.value);
    }
    assert b + [] == b;
  }

  /** One step of the walk over the set variables. */
  lemma {:induction false} GroupsFrom(L: seq<Entry>, p: nat, q: nat)
    requires p <= q <= |L| && forall i | p <= i < q :: !Exposed(L[i])
    ensures SetEntries(L[p..]) == SetEntries(L[q..])
    ensures q < |L| && Exposed(L[q]) ==> SetEntries(L[q..]) == [L[q]] + SetEntries(L[q + 1..])
    decreases q - p
  {
    if p < q {
      assert L[p..][1..] == L[p + 1..];
      GroupsFrom(L, p + 1, q);
    } else if q < |L| {
      assert L[q..][1..] == L[q + 1..];
    }
  }

  function VarBytes(L: seq<Entry>, p: nat): seq<Byte>
    requires p <= |L|
  {
    PrintGroups(GroupsOf(SetEntries(L[p..])))
  }

  lemma VarBytesStep(L: seq<Entry>, p: nat, q: nat)
    requires p <= q < |L| && Exposed(L[q]) && forall i | p <= i < q :: !Exposed(L[i])
    ensures var elems := Counted(L[q].elems);
      VarBytes(L, p) == (if elems == [] then [] else PrintGroup(Group(L[q].id, |elems|, elems))) + VarBytes(L, q + 1)
  {
    GroupsFrom(L, p, q);
    var rest := SetEntries(L[q + 1..]);
    assert ([L[q]] + rest)[1..] == rest;
    var elems := Counted(L[q].elems);
    if elems == [] {
      assert [] + GroupsOf(rest) == GroupsOf(rest);
      assert [] + VarBytes(L, q + 1) == VarBytes(L, q + 1);
    } else {
      assert ([Group(L[q].id, |elems|, elems)] + GroupsOf(rest))[1..] == GroupsOf(rest);
    }
  }

  lemma VarBytesEnd(L: seq<Entry>, p: nat)
    requires p <= |L| && forall i | p <= i < |L| :: !Exposed(L[i])
    ensures VarBytes(L, p) == LE(INVALID_RID, 2)
  {
    GroupsFrom(L, p, |L|);
    assert L[|L|..] == [];
  }

  method SerializeVars(c: VCookie, buffer: seq<Byte>) returns (b: seq<Byte>)
    requires c.Valid()
    ensures b == buffer + VarBytes(c.Value().vars, 0)
  {
    hide Sorts, Listing, Ascending, VarBytes, SetIdFrom, Pos, PrintElems, LE;
    b := buffer;
    ghost var L, p: nat := c.Value().vars, 0;
    var rid := c.GetFirstSetVar();
    while rid != INVALID_RID
      invariant p <= |L| && rid == SetIdFrom(L, p)
      invariant b + VarBytes(L, p) == buffer + VarBytes(L, 0)
      decreases |L| - p
    {
      ghost var q := SetIdFromFinds(L, p);
      ghost var elems := Counted(L[q].elems);
      VarBytesStep(L, p, q);
      var count, vid := c.GetVarElementCount(rid);
      ghost var before := b;
      if count != 0 {
        b := b + LE(rid, 2);
        b := b + LE(count, 4);
      }
      b := AddElems(c, vid, count, b);
      assert b == before + (if elems == [] then [] else PrintGroup(Group(rid, |elems|, elems)));
      Assoc(before, if elems == [] then [] else PrintGroup(Group(rid, |elems|, elems)), VarBytes(L, q + 1));
      rid := c.GetNextSetVar(rid);
      p := q + 1;
    }
    ghost var q := SetIdFromFinds(L, p);
    VarBytesEnd(L, p);
    b := b + LE(rid, 2);
  }

  lemma EncodeParts(c: Cookie, saveLastHit: bool)
    ensures var fields := PrintFields(Fields(c, saveLastHit));
      Encode(c, saveLastHit) == Header(HEADER + |fields| + 1) + (fields + [0]) + VarBytes(c.vars, 0)
  {
    assert [] + [0] == [0];
    assert c.vars[0..] == c.vars;
  }

  method Serialize(c: VCookie, saveLastHit: bool := true) returns (buffer: seq<Byte>)
    requires c.Valid()
    ensures buffer == Encode(c.Value(), saveLastHit)
  {
    hide Sorts, Listing, Ascending, VarBytes, LE, Encode, PrintFields, Fields;
    EncodeParts(c.Value(), saveLastHit);
    buffer := [];
    buffer := buffer + [VC_SERIAL_VERSION];
    buffer := buffer + [VC_SERIAL_VERSION];
    buffer := buffer + [0];
    var offset := |buffer|;
    buffer := buffer + LE(offset, 4);
    ghost var fields := PrintFields(Fields(c.Value(), saveLastHit));
    buffer := SerializeFields(c, buffer, saveLastHit);
    buffer := buffer + [0];
    var relVarOffset := |buffer|;
    buffer := buffer[..offset] + LE(relVarOffset % 0x1_0000_0000, 4) + buffer[offset + 4..];
    assert buffer == Header(relVarOffset) + (fields + [0]);
    buffer := SerializeVars(c, buffer);
  }
}
