/**
 What the codec promises, on every cookie and every buffer: exactly when a cookie survives
 a round trip, that accepted messages delimit themselves, that later versions may add
 fields, and that equal bytes mean equal cookies. "Enumeration" is what `Enumerated` shows;
 "lookups" adds the lookup of every id (`LookAlike`), "all getters" the enumeration of modified
 variables, too (`SameGetters`).
 */
module CodecTheorems {
  import opened Bytes
  import opened VarIndex
  import opened VarProperties
  import opened Lookups
  import opened PurchaseIds
  import opened Cookies
  import opened Wire
  import opened Codec
  import opened WireLanguage

  // ---- Which cookies the codec can carry -----------------------------------

  ghost predicate NulFreeEntries(L: seq<Entry>) {
    forall e | e in L :: NulFreeElems(e.elems)
  }

  ghost predicate NulFreeElems(es: seq<RelVar>) { forall v | v in es :: NulFree(v.value) }

  ghost predicate NulFreeTexts(c: Cookie) {
    && NulFree(c.referrer) && NulFree(c.url) && NulFree(c.pagename) && NulFree(c.merchandising)
    && forall s | s in c.purchaseIds :: NulFree(s)
  }

  /** No visible text contains the byte that terminates texts. */
  ghost predicate NulFreeCookie(c: Cookie) { NulFreeTexts(c) && NulFreeEntries(SetEntries(c.vars)) }

  /** The offset of the variables fits its 32 bits. */
  ghost predicate HeaderFits(c: Cookie, saveLastHit: bool) { HeaderSize(Fields(c, saveLastHit), []) < U32 }

  /** An entry whose element count fits its 32 bits and whose first element is not empty. */
  ghost predicate Storable(e: Entry) { |e.elems| < U32 && (e.elems != [] ==> e.elems[0].value != []) }

  ghost predicate Codable(c: Cookie, saveLastHit: bool) {
    && NulFreeCookie(c)
    && HeaderFits(c, saveLastHit)
    && forall e | e in SetEntries(c.vars) :: Storable(e)
  }

  // ---- The message of a cookie fits the grammar ----------------------------

  lemma {:induction false} FieldsFit(c: Cookie, id: Byte, saveLastHit: bool)
    requires NulFreeTexts(c) && 1 <= id <= LAST_FIELD + 1
    ensures FitsFields(FieldsFrom(c, id, saveLastHit), id)
    decreases LAST_FIELD + 1 - id
  {
    if id <= LAST_FIELD {
      FieldsFit(c, id + 1, saveLastHit);
      if FieldOf(c, id, saveLastHit).Some? {
        FieldFits(c, id, saveLastHit);
        assert FieldsFrom(c, id, saveLastHit)[1..] == FieldsFrom(c, id + 1, saveLastHit);
      }
    }
  }

  lemma FieldFits(c: Cookie, id: Byte, saveLastHit: bool)
    requires NulFreeTexts(c) && FieldOf(c, id, saveLastHit).Some?
    ensures FitsField(FieldOf(c, id, saveLastHit).value) && FieldOf(c, id, saveLastHit).value.id == id
  {
  }

  lemma {:induction false} GroupsFit(S: seq<Entry>)
    requires NulFreeEntries(S) && forall e | e in S :: Exposed(e)
    ensures forall g | g in GroupsOf(S) :: FitsGroup(g)
  {
    if S != [] {
      GroupsFit(S[1..]);
      assert S[0] in S;
      var elems := Counted(S[0].elems);
      assert FitsGroup(Group(S[0].id, |elems|, elems));
    }
  }

  /** Parsing what was serialized: the cookie's message and its end, or a refusal when the offset has wrapped. */
  lemma ParseEncoded(c: Cookie, saveLastHit: bool, extra: seq<Byte>, tail: seq<Byte>)
    requires NulFreeCookie(c) && Foreign(extra)
    requires HeaderSize(Fields(c, saveLastHit), extra) < U32 || extra == []
    ensures var fs := Fields(c, saveLastHit); var gs := GroupsOf(SetEntries(c.vars));
      Parse(EncodeWith(c, saveLastHit, extra) + tail)
      == if HeaderSize(fs, extra) < U32 then Message(true, fs, gs, |EncodeWith(c, saveLastHit, extra)|)
         else Message(false, fs, [], 0)
  {
    SetEntriesAre(c.vars);
    FieldsFit(c, 1, saveLastHit);
    GroupsFit(SetEntries(c.vars));
    ParseLayout(Fields(c, saveLastHit), extra, GroupsOf(SetEntries(c.vars)), tail);
  }

  // ---- Decoding what was encoded -------------------------------------------

  /** A new cookie, or one whose last hit time has been supplied separately. */
  function Fresh(c: Cookie, saveLastHit: bool): Cookie {
    Blank(c.key, Unmodified(false)).(lastHit := if saveLastHit then 0 else c.lastHit)
  }

  /** The cookie that comes back. Its two shadowed times are both the last hit time. */
  function Returned(c: Cookie): Cookie {
    Enumerated(c).(vars := Stored(SetEntries(c.vars)))
  }

  lemma ReplayOwnMessage(c: Cookie, saveLastHit: bool, end: nat)
    requires WellFormed(c)
    ensures var m := Message(true, Fields(c, saveLastHit), GroupsOf(SetEntries(c.vars)), end);
      Plain(ApplyAll(Fresh(c, saveLastHit), MessageOps(m))) == Returned(c)
  {
    var s, S := Fresh(c, saveLastHit), SetEntries(c.vars);
    var ops := FieldsOps(Fields(c, saveLastHit));
    ApplyConcat(s, ops, GroupsOps(GroupsOf(S)));
    ReplayFields(s, c, 1, saveLastHit);
    UsingItRebuildsIt(c.purchaseIds);
    SetEntriesAscend(c.vars);
    var s1 := ApplyAll(s, ops);
    assert s1.vars == Plain(s1).vars == [];
    ReplayGroups(s1, S);
    assert [] + Stored(S) == Stored(S);
  }

  /**
   Decoding a serialized cookie, whatever bytes follow it and whatever fields a later
   version has inserted before the end of the header.
   */
  lemma DecodeEncoded(c: Cookie, saveLastHit: bool, extra: seq<Byte>, tail: seq<Byte>)
    requires WellFormed(c) && NulFreeCookie(c) && Foreign(extra)
    requires HeaderSize(Fields(c, saveLastHit), extra) < U32
    ensures var (ok, d) := Decode(Fresh(c, saveLastHit), EncodeWith(c, saveLastHit, extra) + tail);
      ok && Plain(d) == Returned(c)
  {
    ParseEncoded(c, saveLastHit, extra, tail);
    ReplayOwnMessage(c, saveLastHit, |EncodeWith(c, saveLastHit, extra)|);
  }

  // ---- Decoding never makes up a NUL ---------------------------------------

  ghost predicate NulFreeOp(op: CookieOp) {
    match op
    case Referrer(s) => NulFree(s)
    case Url(s) => NulFree(s)
    case Pagename(s) => NulFree(s)
    case Merchandising(s) => NulFree(s)
    case PurchaseId(s) => NulFree(s)
    case SetVariable(_, e, _, _) => NulFree(e.value)
    case AddElement(_, e) => NulFree(e.value)
    case _ => true
  }

  lemma PutNulFree(L: seq<Entry>, rid: RelationId, elems: seq<RelVar>)
    requires NulFreeEntries(L) && NulFreeElems(elems)
    ensures NulFreeEntries(Put(L, rid, elems))
  {
    forall x | x in Put(L, rid, elems)
      ensures x in L || x == Entry(rid, elems)
    {
    }
  }

  lemma AllocateNulFree(elems: seq<RelVar>, e: RelVar, alloc: AllocationType, maxLinear: UInt32)
    requires NulFreeElems(elems) && NulFree(e.value)
    ensures NulFreeElems(Allocate(elems, e, alloc, maxLinear))
  {
    forall v | v in Allocate(elems, e, alloc, maxLinear)
      ensures v in elems || v == e || v == BLANK
    {
    }
  }

  lemma WithoutSubset(ids: seq<Text>, id: Text)
    ensures forall s | s in Without(ids, id) :: s in ids
  {
  }

  lemma ApplyNulFree(c: Cookie, op: CookieOp)
    requires NulFreeTexts(c) && NulFreeEntries(c.vars) && NulFreeOp(op)
    ensures NulFreeTexts(Apply(c, op)) && NulFreeEntries(Apply(c, op).vars)
  {
    hide NulFree, Pos, Without, Put, Allocate;
    match op
    case PurchaseId(s) => WithoutSubset(c.purchaseIds, s);
    case SetVariable(rid, e, alloc, maxLinear) =>
      AllocateNulFree(Elems(c.vars, rid), e, alloc, maxLinear);
      PutNulFree(c.vars, rid, Allocate(Elems(c.vars, rid), e, alloc, maxLinear));
    case AddElement(rid, e) => PutNulFree(c.vars, rid, Elems(c.vars, rid) + [e]);
    case _ =>
  }

  lemma {:induction false} ApplyAllNulFree(c: Cookie, ops: seq<CookieOp>)
    requires NulFreeTexts(c) && NulFreeEntries(c.vars) && forall op | op in ops :: NulFreeOp(op)
    ensures NulFreeTexts(ApplyAll(c, ops)) && NulFreeEntries(ApplyAll(c, ops).vars)
    decreases |ops|
  {
    if ops != [] {
      hide Apply, NulFreeTexts, NulFreeEntries, NulFreeOp;
      ApplyNulFree(c, ops[0]);
      ApplyAllNulFree(Apply(c, ops[0]), ops[1..]);
    }
  }

  lemma {:induction false} UsesNulFree(ids: seq<Text>)
    requires forall s | s in ids :: NulFree(s)
    ensures forall op | op in UsesOf(ids) :: NulFreeOp(op)
  {
    if ids != [] { UsesNulFree(ids[1..]); }
  }

  lemma {:induction false} FieldsOpsNulFree(fs: seq<Field>)
    requires forall f | f in fs :: NulFreeField(f)
    ensures forall op | op in FieldsOps(fs) :: NulFreeOp(op)
  {
    if fs != [] {
      assert fs[0] in fs;
      if fs[0].IdsField? { UsesNulFree(fs[0].ids); }
      FieldsOpsNulFree(fs[1..]);
    }
  }

  lemma {:induction false} ElemOpsNulFree(rid: RelationId, count: UInt32, elems: seq<RelVar>, stored: bool)
    requires NulFreeElems(elems)
    ensures forall op | op in ElemOps(rid, count, elems, stored) :: NulFreeOp(op)
    decreases |elems|
  {
    if elems != [] {
      ElemOpsNulFree(rid, count, elems[1..], true);
      ElemOpsNulFree(rid, count, elems[1..], false);
    }
  }

  lemma {:induction false} GroupsOpsNulFree(gs: seq<Group>)
    requires forall g | g in gs :: NulFreeGroup(g)
    ensures forall op | op in GroupsOps(gs) :: NulFreeOp(op)
  {
    if gs != [] {
      assert gs[0] in gs;
      ElemOpsNulFree(gs[0].rid, gs[0].count, gs[0].elems, false);
      GroupsOpsNulFree(gs[1..]);
    }
  }

  /** Whatever the bytes, no text that Deserialize stores contains a NUL. */
  lemma DecodedIsNulFree(c: Cookie, buf: seq<Byte>)
    requires NulFreeTexts(c) && NulFreeEntries(c.vars)
    ensures NulFreeTexts(Decode(c, buf).1) && NulFreeEntries(Decode(c, buf).1.vars)
  {
    ParsedNulFree(buf);
    FieldsOpsNulFree(Parse(buf).fields);
    GroupsOpsNulFree(Parse(buf).groups);
    ApplyAllNulFree(c, MessageOps(Parse(buf)));
  }

  // ---- Round trip ----------------------------------------------------------

  ghost predicate EnumerationReturns(c: Cookie, saveLastHit: bool) {
    var (ok, d) := Decode(Fresh(c, saveLastHit), Encode(c, saveLastHit));
    ok && Enumerated(d) == Enumerated(c)
  }

  lemma {:induction false} StoredSame(S: seq<Entry>)
    requires forall e | e in S :: Exposed(e)
    ensures |Stored(S)| <= |S|
    ensures Stored(S) == S <==> forall e | e in S :: Storable(e)
  {
    if S != [] {
      StoredSame(S[1..]);
      assert S[0] in S;
      StoredStep(S);
      assert forall x :: x in S <==> x == S[0] || x in S[1..];
    }
  }

  lemma {:induction false} StoredStep(S: seq<Entry>)
    requires S != [] && Exposed(S[0]) && |Stored(S[1..])| <= |S[1..]|
    ensures |Stored(S)| <= |S|
    ensures Stored(S) == S <==> Storable(S[0]) && Stored(S[1..]) == S[1..]
  {
    var e, kept := S[0], Trim(Counted(S[0].elems));
    assert kept == e.elems <==> Storable(e);
    assert S == [e] + S[1..];
    if kept != [] {
      assert Stored(S)[0] == Entry(e.id, kept) && Stored(S)[1..] == Stored(S[1..]);
    }
  }

  lemma {:induction false} StoredAreExposed(S: seq<Entry>)
    requires forall e | e in S :: Exposed(e)
    ensures SetEntries(Stored(S)) == Stored(S)
  {
    if S != [] {
      StoredAreExposed(S[1..]);
      assert Exposed(S[0]);
      var elems := Trim(Counted(S[0].elems));
      if elems == [] {
        assert [] + Stored(S[1..]) == Stored(S[1..]);
      } else {
        assert Stored(S)[1..] == Stored(S[1..]);
      }
    }
  }

  lemma EnumerationOfReturned(c: Cookie, d: Cookie)
    requires Plain(d) == Returned(c)
    ensures Enumerated(d) == Returned(c)
  {
    SetEntriesAre(c.vars);
    StoredAreExposed(SetEntries(c.vars));
  }

  /**
   Enumerating a cookie shows the same before serialization and after deserialization exactly
   when the cookie is codable.
   */
  lemma EnumerationReturnsIff(c: Cookie, saveLastHit: bool)
    requires WellFormed(c)
    ensures EnumerationReturns(c, saveLastHit) <==> Codable(c, saveLastHit)
  {
    var S := SetEntries(c.vars);
    var (ok, d) := Decode(Fresh(c, saveLastHit), Encode(c, saveLastHit));
    assert Encode(c, saveLastHit) + [] == Encode(c, saveLastHit);
    SetEntriesAre(c.vars);
    StoredSame(S);
    if NulFreeCookie(c) {
      ParseEncoded(c, saveLastHit, [], []);
      if HeaderFits(c, saveLastHit) {
        DecodeEncoded(c, saveLastHit, [], []);
        EnumerationOfReturned(c, d);
      }
    } else {
      DecodedIsNulFree(Fresh(c, saveLastHit), Encode(c, saveLastHit));
      SetEntriesAre(d.vars);
    }
  }

  lemma CodableReturns(c: Cookie, saveLastHit: bool)
    requires WellFormed(c) && Codable(c, saveLastHit)
    ensures Returned(c) == Enumerated(c)
  {
    SetEntriesAre(c.vars);
    StoredSame(SetEntries(c.vars));
  }

  /** Enumeration and lookups are the same before serialization and after deserialization. */
  ghost predicate LooksReturn(c: Cookie, saveLastHit: bool) {
    var (ok, d) := Decode(Fresh(c, saveLastHit), Encode(c, saveLastHit));
    ok && LookAlike(d, c)
  }

  /** Every getter answers the same before serialization and after deserialization. */
  ghost predicate GettersReturn(c: Cookie, saveLastHit: bool) {
    var (ok, d) := Decode(Fresh(c, saveLastHit), Encode(c, saveLastHit));
    ok && SameGetters(d, c)
  }

  /** What a decoder returns has set entries only, and other getters than enumeration notice. */
  lemma GettersOfReturned(c: Cookie, saveLastHit: bool, d: Cookie)
    requires WellFormed(c) && Codable(c, saveLastHit) && Plain(d) == Returned(c)
    ensures Enumerated(d) == Enumerated(c)
    ensures LookAlike(d, c) <==> Settled(c.vars)
    ensures SameGetters(d, c) <==> AllSet(c.vars)
  {
    CodableReturns(c, saveLastHit);
    EnumerationOfReturned(c, d);
    assert d.vars == Plain(d).vars == Enumerated(c).vars == SetEntries(c.vars);
    SettledIff(c.vars);
    AllSetIff(c.vars);
  }

  /**
   Enumeration and lookups survive serialization and deserialization exactly when the cookie
   is codable and settled: no variable with elements under id 65535, and no cleared one below
   a set one.
   */
  lemma LooksReturnIff(c: Cookie, saveLastHit: bool)
    requires WellFormed(c)
    ensures LooksReturn(c, saveLastHit) <==> Codable(c, saveLastHit) && Settled(c.vars)
  {
    hide Enumerated, Decode, Encode, Codable, Settled, AllSet, Plain, Returned, SameLookups, SameGetters;
    EnumerationReturnsIff(c, saveLastHit);
    if Codable(c, saveLastHit) {
      CodableDecodes(c, saveLastHit);
      GettersOfReturned(c, saveLastHit, Decode(Fresh(c, saveLastHit), Encode(c, saveLastHit)).1);
    }
  }

  /**
   A cookie survives serialization and deserialization, as far as any getter can tell,
   exactly when it is codable and all its variables are set. The order in which they were set
   does not matter.
   */
  lemma RoundTripIff(c: Cookie, saveLastHit: bool)
    requires WellFormed(c)
    ensures GettersReturn(c, saveLastHit) <==> Codable(c, saveLastHit) && AllSet(c.vars)
  {
    hide Enumerated, Decode, Encode, Codable, Settled, AllSet, Plain, Returned, SameLookups, SameModified;
    EnumerationReturnsIff(c, saveLastHit);
    if Codable(c, saveLastHit) {
      CodableDecodes(c, saveLastHit);
      GettersOfReturned(c, saveLastHit, Decode(Fresh(c, saveLastHit), Encode(c, saveLastHit)).1);
    }
  }

  lemma CodableDecodes(c: Cookie, saveLastHit: bool)
    requires WellFormed(c) && Codable(c, saveLastHit)
    ensures var (ok, d) := Decode(Fresh(c, saveLastHit), Encode(c, saveLastHit));
      ok && Plain(d) == Returned(c)
  {
    DecodeEncoded(c, saveLastHit, [], []);
    assert Encode(c, saveLastHit) + [] == Encode(c, saveLastHit);
  }

  // Codable cookies that not all getters find again. The last one is settled.

  const CLEARED_BELOW := Holding([Entry(11, []), Entry(12, X)])
  const AT_SENTINEL := Holding([Entry(INVALID_RID, X)])
  const ONLY_CLEARED := Holding([Entry(5, [])])

  lemma HoldingIsCodable(vars: seq<Entry>, saveLastHit: bool)
    requires Ascending(vars) && forall e | e in SetEntries(vars) :: e.elems == X
    ensures WellFormed(Holding(vars)) && Codable(Holding(vars), saveLastHit)
  {
    hide SetEntries;
    var c := Holding(vars);
    UpToSix(c, 1, saveLastHit);
    BlankFrom(c, 8, saveLastHit);
    assert FieldsFrom(c, 7, saveLastHit) == [];
  }

  lemma ExamplesAreCodable(saveLastHit: bool)
    ensures WellFormed(CLEARED_BELOW) && Codable(CLEARED_BELOW, saveLastHit)
    ensures WellFormed(AT_SENTINEL) && Codable(AT_SENTINEL, saveLastHit)
    ensures WellFormed(ONLY_CLEARED) && Codable(ONLY_CLEARED, saveLastHit) && Settled(ONLY_CLEARED.vars)
    ensures SetEntries(CLEARED_BELOW.vars) == [Entry(12, X)]
    ensures SetEntries(AT_SENTINEL.vars) == [] && SetEntries(ONLY_CLEARED.vars) == []
  {
    hide Codable;
    assert CLEARED_BELOW.vars[1..] == [Entry(12, X)];
    AllExposed([Entry(12, X)]);
    HoldingIsCodable(CLEARED_BELOW.vars, saveLastHit);
    HoldingIsCodable(AT_SENTINEL.vars, saveLastHit);
    HoldingIsCodable(ONLY_CLEARED.vars, saveLastHit);
  }

  /** The first is what setting 12, setting 11 and clearing 11 leaves. */
  lemma ClearedBelowIsReachable()
    ensures var ops := [Set(12, X[0], First, 0), Set(11, X[0], First, 0), Cleared(11)];
      History(ops) == CLEARED_BELOW.vars
  {
    var set12, set11 := Set(12, X[0], First, 0), Set(11, X[0], First, 0);
    assert [set12, set11, Cleared(11)][..2] == [set12, set11];
    assert [set12, set11][..1] == [set12] && [set12][..0] == [];
    assert History([set12]) == [Entry(12, X)];
    assert History([set12, set11]) == [Entry(11, X), Entry(12, X)];
  }

  /** A variable that was cleared below a set one comes back as its neighbour. */
  lemma ClearedIdComesBack(saveLastHit: bool)
    ensures Codable(CLEARED_BELOW, saveLastHit)
    ensures var d := Decode(Fresh(CLEARED_BELOW, saveLastHit), Encode(CLEARED_BELOW, saveLastHit)).1;
      CeilingElems(CLEARED_BELOW.vars, 11) == [] && CeilingElems(d.vars, 11) == X
  {
    hide Codable, Decode, Encode, SetEntries, CeilingElems, Returned;
    var c := CLEARED_BELOW;
    ExamplesAreCodable(saveLastHit);
    CodableDecodes(c, saveLastHit);
    CodableReturns(c, saveLastHit);
    CeilingAt(c.vars, 11, 0);
    CeilingAt([Entry(12, X)], 11, 0);
    assert Plain(Decode(Fresh(c, saveLastHit), Encode(c, saveLastHit)).1).vars == [Entry(12, X)];
  }

  /** A variable under id 65535 is gone. */
  lemma SentinelIsLost(saveLastHit: bool)
    ensures Codable(AT_SENTINEL, saveLastHit)
    ensures var d := Decode(Fresh(AT_SENTINEL, saveLastHit), Encode(AT_SENTINEL, saveLastHit)).1;
      CeilingElems(AT_SENTINEL.vars, INVALID_RID) == X && CeilingElems(d.vars, INVALID_RID) == []
  {
    hide Codable, Decode, Encode, SetEntries, Returned;
    var c := AT_SENTINEL;
    ExamplesAreCodable(saveLastHit);
    CodableDecodes(c, saveLastHit);
    CodableReturns(c, saveLastHit);
    CeilingAt(c.vars, INVALID_RID, 0);
    assert Plain(Decode(Fresh(c, saveLastHit), Encode(c, saveLastHit)).1).vars == [];
  }

  /** The last is what setting and clearing 5 leaves. */
  lemma OnlyClearedIsReachable()
    ensures History([Set(5, X[0], First, 0), Cleared(5)]) == ONLY_CLEARED.vars
  {
    var set5 := Set(5, X[0], First, 0);
    assert [set5, Cleared(5)][..1] == [set5] && [set5][..0] == [];
    assert History([set5]) == [Entry(5, X)];
  }

  /** A variable that was set and cleared is forgotten: it is not among the modified ones any more. */
  lemma ClearedIdIsForgotten(saveLastHit: bool)
    ensures LooksReturn(ONLY_CLEARED, saveLastHit)
    ensures var d := Decode(Fresh(ONLY_CLEARED, saveLastHit), Encode(ONLY_CLEARED, saveLastHit)).1;
      IndexedFrom(ONLY_CLEARED.vars, 0) == 5 && IndexedFrom(d.vars, 0) == INVALID_RID
  {
    hide Codable, Settled, Decode, Encode, SetEntries, Returned, LooksReturn;
    var c := ONLY_CLEARED;
    ExamplesAreCodable(saveLastHit);
    LooksReturnIff(c, saveLastHit);
    CodableDecodes(c, saveLastHit);
    CodableReturns(c, saveLastHit);
    assert Plain(Decode(Fresh(c, saveLastHit), Encode(c, saveLastHit)).1).vars == [];
  }

  /**
   A codable cookie is read back the same also when a later version has added fields (any
   bytes starting with a tag this version does not know) and when other bytes follow.
   */
  lemma LaterFieldsAndTrailingBytes(c: Cookie, saveLastHit: bool, extra: seq<Byte>, tail: seq<Byte>)
    requires WellFormed(c) && Codable(c, saveLastHit) && Foreign(extra)
    requires HeaderSize(Fields(c, saveLastHit), extra) < U32
    ensures var (ok, d) := Decode(Fresh(c, saveLastHit), EncodeWith(c, saveLastHit, extra) + tail);
      && ok && Enumerated(d) == Enumerated(c)
      && (LookAlike(d, c) <==> Settled(c.vars))
      && (SameGetters(d, c) <==> AllSet(c.vars))
  {
    DecodeEncoded(c, saveLastHit, extra, tail);
    GettersOfReturned(c, saveLastHit, Decode(Fresh(c, saveLastHit), EncodeWith(c, saveLastHit, extra) + tail).1);
  }

  /** For any buffer at all: once accepted, appended bytes change nothing. */
  lemma AcceptedIgnoresTail(c: Cookie, buf: seq<Byte>, tail: seq<Byte>)
    requires Decode(c, buf).0
    ensures Decode(c, buf + tail) == Decode(c, buf)
  {
    ParseStable(buf, tail);
  }

  /** Every proper prefix of a serialized cookie is refused. */
  lemma PrefixesRefused(c: Cookie, saveLastHit: bool, into: Cookie, n: nat)
    requires WellFormed(c) && NulFreeCookie(c) && HeaderFits(c, saveLastHit) && n < |Encode(c, saveLastHit)|
    ensures !Decode(into, Encode(c, saveLastHit)[..n]).0
  {
    var buf := Encode(c, saveLastHit);
    assert buf + [] == buf;
    ParseEncoded(c, saveLastHit, [], []);
    PrefixRejected(buf, n);
  }

  /**
   A serialized cookie that is cut off after `n` bytes is refused, and the cookie it was read
   into has been given exactly the fields and elements that lie wholly within those bytes.
   */
  lemma CutCookie(c: Cookie, saveLastHit: bool, into: Cookie, n: nat)
    requires WellFormed(c) && NulFreeCookie(c) && HeaderFits(c, saveLastHit) && n < |Encode(c, saveLastHit)|
    ensures var fs, gs := Fields(c, saveLastHit), GroupsOf(SetEntries(c.vars));
      var size := 7 + |PrintFields(fs)| + 1;
      Decode(into, Encode(c, saveLastHit)[..n])
      == (false, ApplyAll(into, FieldsOps(if n < 8 then [] else FieldsWithin(fs, n - 7))
                                + GroupsOps(if n < size then [] else GroupsWithin(gs, n - size))))
  {
    SetEntriesAre(c.vars);
    FieldsFit(c, 1, saveLastHit);
    GroupsFit(SetEntries(c.vars));
    hide Parse, Layout, Fields, GroupsOf, FieldsWithin, GroupsWithin, FitsFields;
    CutMessage(Fields(c, saveLastHit), GroupsOf(SetEntries(c.vars)), n);
  }

  // ---- Canonical form ------------------------------------------------------

  lemma {:induction false} FieldsShowOnlyTheEnumeration(a: Cookie, b: Cookie, id: Byte, saveLastHit: bool)
    requires Enumerated(a) == Enumerated(b)
    ensures FieldsFrom(a, id, saveLastHit) == FieldsFrom(b, id, saveLastHit)
    decreases LAST_FIELD + 1 - id
  {
    if id <= LAST_FIELD {
      FieldsShowOnlyTheEnumeration(a, b, id + 1, saveLastHit);
      SameField(a, b, id, saveLastHit);
    }
  }

  lemma SameField(a: Cookie, b: Cookie, id: Byte, saveLastHit: bool)
    requires Enumerated(a) == Enumerated(b)
    ensures FieldOf(a, id, saveLastHit) == FieldOf(b, id, saveLastHit)
  {
    var x := Enumerated(a);
    assert a.lastHit == x.lastHit && a.firstHit == x.firstHit && a.visitNum == x.visitNum;
    assert a.referrer == x.referrer && a.url == x.url && a.pagename == x.pagename;
    assert a.purchaseNum == x.purchaseNum && a.merchandising == x.merchandising && a.purchaseIds == x.purchaseIds;
  }

  /** The bytes depend on nothing but what enumeration shows. */
  lemma BytesShowOnlyTheEnumeration(a: Cookie, b: Cookie, saveLastHit: bool)
    requires Enumerated(a) == Enumerated(b)
    ensures Encode(a, saveLastHit) == Encode(b, saveLastHit)
  {
    FieldsShowOnlyTheEnumeration(a, b, 1, saveLastHit);
    assert SetEntries(a.vars) == Enumerated(a).vars == Enumerated(b).vars == SetEntries(b.vars);
  }

  lemma {:induction false} GroupsDetermineEntries(S: seq<Entry>, T: seq<Entry>)
    requires forall e | e in S + T :: Exposed(e) && |e.elems| < U32
    requires GroupsOf(S) == GroupsOf(T)
    ensures S == T
  {
    GroupsSize(S);
    GroupsSize(T);
    if S != [] {
      var s, t := S[0], T[0];
      assert s in S + T && t in S + T;
      CountedAll(s.elems);
      CountedAll(t.elems);
      assert GroupsOf(S)[0] == GroupsOf(T)[0];
      assert GroupsOf(S)[1..] == GroupsOf(S[1..]) && GroupsOf(T)[1..] == GroupsOf(T[1..]);
      assert forall e | e in S[1..] + T[1..] :: e in S + T;
      GroupsDetermineEntries(S[1..], T[1..]);
      assert S == [s] + S[1..] && T == [t] + T[1..];
    }
  }

  lemma {:induction false} GroupsSize(S: seq<Entry>)
    requires forall e | e in S :: Exposed(e) && |e.elems| < U32
    ensures |GroupsOf(S)| == |S|
  {
    if S != [] {
      assert S[0] in S;
      GroupsSize(S[1..]);
    }
  }

  ghost predicate Serializable(c: Cookie, saveLastHit: bool) {
    WellFormed(c) && NulFreeCookie(c) && Countable(c) && HeaderFits(c, saveLastHit)
  }

  /**
   Canonical form: cookies of one identity have the same bytes exactly when enumerating them
   shows the same. This holds with the last hit time left out, too: the two getters that stand in
   for it put it into the bytes anyway.
   */
  lemma CanonicalForm(a: Cookie, b: Cookie, saveLastHit: bool)
    requires Serializable(a, saveLastHit) && Serializable(b, saveLastHit) && a.key == b.key
    ensures Encode(a, saveLastHit) == Encode(b, saveLastHit) <==> Enumerated(a) == Enumerated(b)
  {
    if Enumerated(a) == Enumerated(b) {
      BytesShowOnlyTheEnumeration(a, b, saveLastHit);
    } else if Encode(a, saveLastHit) == Encode(b, saveLastHit) {
      ParseEncoded(a, saveLastHit, [], []);
      ParseEncoded(b, saveLastHit, [], []);
      var s, A, B := Blank(a.key, Unmodified(false)), SetEntries(a.vars), SetEntries(b.vars);
      assert Fields(a, saveLastHit) == Fields(b, saveLastHit) && GroupsOf(A) == GroupsOf(B);
      SetEntriesAre(a.vars);
      SetEntriesAre(b.vars);
      GroupsDetermineEntries(A, B);
      ReplayFields(s, a, 1, saveLastHit);
      ReplayFields(s, b, 1, saveLastHit);
      UsingItRebuildsIt(a.purchaseIds);
      UsingItRebuildsIt(b.purchaseIds);
      OverlayShows(s, a, b, saveLastHit);
    }
  }

  /**
   Lookups may tell cookies with the same bytes apart, but only by their essential entries.
   Among settled cookies the bytes are canonical for enumeration and lookups.
   */
  lemma CanonicalForLookups(a: Cookie, b: Cookie, saveLastHit: bool)
    requires Serializable(a, saveLastHit) && Serializable(b, saveLastHit) && a.key == b.key
    ensures LookAlike(a, b)
       <==> Encode(a, saveLastHit) == Encode(b, saveLastHit) && Essential(a.vars) == Essential(b.vars)
    ensures Settled(a.vars) && Settled(b.vars)
            ==> (LookAlike(a, b) <==> Encode(a, saveLastHit) == Encode(b, saveLastHit))
  {
    hide Encode, HeaderFits, NulFreeCookie, Countable, Settled, Ascending;
    CanonicalForm(a, b, saveLastHit);
    LooksSeeEssentials(a.vars, b.vars);
    SettledIff(a.vars);
    SettledIff(b.vars);
  }

  /**
   All getters together tell cookies with the same bytes apart exactly by their observed
   entries. Among cookies whose variables are all set the bytes are canonical for them.
   */
  lemma CanonicalForAllGetters(a: Cookie, b: Cookie, saveLastHit: bool)
    requires Serializable(a, saveLastHit) && Serializable(b, saveLastHit) && a.key == b.key
    ensures SameGetters(a, b)
       <==> Encode(a, saveLastHit) == Encode(b, saveLastHit) && Observed(a.vars) == Observed(b.vars)
    ensures AllSet(a.vars) && AllSet(b.vars)
            ==> (SameGetters(a, b) <==> Encode(a, saveLastHit) == Encode(b, saveLastHit))
  {
    hide Encode, HeaderFits, NulFreeCookie, Countable, AllSet, Ascending, After, IndexedFrom, CeilingElems;
    CanonicalForm(a, b, saveLastHit);
    GettersSeeObserved(a.vars, b.vars);
    AllSetIff(a.vars);
    AllSetIff(b.vars);
  }

  lemma OverlayShows(s: Cookie, a: Cookie, b: Cookie, saveLastHit: bool)
    requires s == Blank(a.key, Unmodified(false)) && a.key == b.key
    requires UseAll([], a.purchaseIds) == a.purchaseIds && UseAll([], b.purchaseIds) == b.purchaseIds
    requires Overlay(s, a, 1, saveLastHit) == Overlay(s, b, 1, saveLastHit)
    requires SetEntries(a.vars) == SetEntries(b.vars)
    ensures Enumerated(a) == Enumerated(b)
  {
    hide UseAll;
    var x, y := Overlay(s, a, 1, saveLastHit), Overlay(s, b, 1, saveLastHit);
    assert a.lastHit == x.lastHitLocal == y.lastHitLocal == b.lastHit;
    assert a.firstHit == x.firstHit == y.firstHit == b.firstHit;
    assert a.visitNum == x.visitNum == y.visitNum == b.visitNum;
    assert a.referrer == x.referrer == y.referrer == b.referrer;
    assert a.url == x.url == y.url == b.url;
    assert a.pagename == x.pagename == y.pagename == b.pagename;
    assert a.purchaseNum == x.purchaseNum == y.purchaseNum == b.purchaseNum;
    assert a.merchandising == x.merchandising == y.merchandising == b.merchandising;
    assert a.purchaseIds == x.purchaseIds == y.purchaseIds == b.purchaseIds;
  }

  /**
   `operator ==` against the bytes: equal bytes always compare equal, but equal comparison
   gives equal bytes only together with the check that both cookies set the same ids.
   */
  lemma EqualityAgainstBytes(a: Cookie, b: Cookie, saveLastHit: bool)
    requires Serializable(a, saveLastHit) && Serializable(b, saveLastHit) && a.key == b.key
    ensures Encode(a, saveLastHit) == Encode(b, saveLastHit)
       <==> Equals(a, b) && SetIds(a.vars) == SetIds(b.vars)
  {
    CanonicalForm(a, b, saveLastHit);
    EqualityExactly(a, b);
  }

  /**
   What came back compares equal in both directions and serializes to the same bytes, with or
   without the last hit time.
   */
  lemma RoundTripIsIdentical(c: Cookie, saveLastHit: bool, again: bool)
    requires WellFormed(c) && Codable(c, saveLastHit)
    ensures var d := Decode(Fresh(c, saveLastHit), Encode(c, saveLastHit)).1;
      Equals(c, d) && Equals(d, c) && Encode(d, again) == Encode(c, again)
  {
    EnumerationReturnsIff(c, saveLastHit);
    var d := Decode(Fresh(c, saveLastHit), Encode(c, saveLastHit)).1;
    DecodeKeepsInvariants(Fresh(c, saveLastHit), Encode(c, saveLastHit));
    EnumerationImpliesEquality(c, d);
    EnumerationImpliesEquality(d, c);
    BytesShowOnlyTheEnumeration(c, d, again);
  }

  /**
   The visitor-local hit time and the purchase time that were set do not survive: what comes
   back under them is the last hit time.
   */
  lemma ShadowedTimesSurviveIff(c: Cookie, saveLastHit: bool)
    requires WellFormed(c) && Codable(c, saveLastHit)
    ensures var d := Decode(Fresh(c, saveLastHit), Encode(c, saveLastHit)).1;
      d.lastHitLocal == c.lastHitLocal && d.lastPurchase == c.lastPurchase
      <==> c.lastHitLocal == c.lastHit && c.lastPurchase == c.lastHit
  {
    DecodeEncoded(c, saveLastHit, [], []);
    assert Encode(c, saveLastHit) + [] == Encode(c, saveLastHit);
    var d := Decode(Fresh(c, saveLastHit), Encode(c, saveLastHit)).1;
    assert Plain(d).lastHitLocal == Returned(c).lastHitLocal == c.lastHit;
    assert Plain(d).lastPurchase == Returned(c).lastPurchase == c.lastHit;
  }

  /**
   Leaving the last hit time out of the bytes is meant to make them independent of it. Since
   it goes in under two other tags, they are not: another last hit time gives other bytes.
   */
  lemma LastHitIsNotLeftOut(c: Cookie, t: Time)
    requires Serializable(c, false) && Serializable(c.(lastHit := t), false)
    ensures Encode(c, false) == Encode(c.(lastHit := t), false) <==> t == c.lastHit
  {
    hide Encode, HeaderFits, NulFreeCookie, Countable;
    var d := c.(lastHit := t);
    CanonicalForm(c, d, false);
    assert Enumerated(c).lastHit == c.lastHit && Enumerated(d).lastHit == t;
    assert t == c.lastHit ==> d == c;
  }

  // A NUL inside a text can make two different cookies serialize alike.

  const WITH_NUL := Blank(Key(0, 0, 0), Unmodified(true)).(referrer := [97, 0, 7, 98])
  const WITH_URL := Blank(Key(0, 0, 0), Unmodified(true)).(referrer := [97], url := [98])

  lemma NulMakesBytesAmbiguous(saveLastHit: bool)
    ensures WellFormed(WITH_NUL) && WellFormed(WITH_URL) && Enumerated(WITH_NUL) != Enumerated(WITH_URL)
    ensures Encode(WITH_NUL, saveLastHit) == Encode(WITH_URL, saveLastHit)
  {
    hide SetEntries, FieldsFrom, PrintFields, Layout;
    FieldsOfExamples(saveLastHit);
    PrintedExamples();
    SameLayout(Fields(WITH_NUL, saveLastHit), Fields(WITH_URL, saveLastHit), GroupsOf(SetEntries([])));
  }

  lemma {:induction false} SameLayout(fs: seq<Field>, fs': seq<Field>, gs: seq<Group>)
    requires PrintFields(fs) == PrintFields(fs')
    ensures Layout(fs, [], gs) == Layout(fs', [], gs)
  {
  }

  lemma PrintedExamples()
    ensures PrintFields([TextField(6, [97, 0, 7, 98])]) == [6, 97, 0, 7, 98, 0]
    ensures PrintFields([TextField(6, [97])] + [TextField(7, [98])]) == [6, 97, 0, 7, 98, 0]
  {
    PrintOne(TextField(6, [97, 0, 7, 98]));
    PrintOne(TextField(7, [98]));
    assert ([TextField(6, [97])] + [TextField(7, [98])])[1..] == [TextField(7, [98])];
  }

  lemma PrintOne(f: Field)
    ensures PrintFields([f]) == PrintField(f)
  {
    assert [f][1..] == [];
  }

  lemma FieldsOfExamples(saveLastHit: bool)
    ensures Fields(WITH_NUL, saveLastHit) == [TextField(6, [97, 0, 7, 98])]
    ensures Fields(WITH_URL, saveLastHit) == [TextField(6, [97])] + [TextField(7, [98])]
  {
    BlankFrom(WITH_NUL, 8, saveLastHit);
    BlankFrom(WITH_URL, 8, saveLastHit);
    assert FieldsFrom(WITH_NUL, 7, saveLastHit) == [];
    assert FieldsFrom(WITH_URL, 7, saveLastHit) == [TextField(7, [98])];
    UpToSix(WITH_NUL, 1, saveLastHit);
    UpToSix(WITH_URL, 1, saveLastHit);
  }

  lemma {:induction false} BlankFrom(c: Cookie, id: Byte, saveLastHit: bool)
    requires 8 <= id <= LAST_FIELD + 1
    requires c.pagename == [] && c.purchaseNum == 0 && c.merchandising == [] && c.purchaseIds == []
    ensures FieldsFrom(c, id, saveLastHit) == []
    decreases LAST_FIELD + 1 - id
  {
    if id <= LAST_FIELD { BlankFrom(c, id + 1, saveLastHit); }
  }

  lemma {:induction false} UpToSix(c: Cookie, id: Byte, saveLastHit: bool)
    requires 1 <= id <= 6 && c.firstHit == 0 && c.lastHit == 0 && c.visitNum == 0
    ensures FieldsFrom(c, id, saveLastHit) == FieldsFrom(c, 6, saveLastHit)
    decreases 6 - id
  {
    if id < 6 { UpToSix(c, id + 1, saveLastHit); }
  }

  // ---- Cookies that come out of a run of operations -------------------------

  /** At most `n` elements each, and no empty value. */
  ghost predicate Filled(L: seq<Entry>, n: nat) {
    forall e | e in L :: FilledElems(e.elems, n)
  }

  ghost predicate FilledElems(es: seq<RelVar>, n: nat) { |es| <= n && forall v | v in es :: v.value != [] }

  /** Elements are only ever added with a value. */
  predicate AddsValue(op: CookieOp) { op.AddElement? ==> op.e.value != [] }

  lemma PutFilled(L: seq<Entry>, rid: RelationId, elems: seq<RelVar>, n: nat)
    requires Filled(L, n) && FilledElems(elems, n + 1)
    ensures Filled(Put(L, rid, elems), n + 1)
  {
    forall x | x in Put(L, rid, elems)
      ensures x in L || x == Entry(rid, elems)
    {
    }
  }

  lemma AllocateFilled(elems: seq<RelVar>, e: RelVar, alloc: AllocationType, maxLinear: UInt32, n: nat)
    requires FilledElems(elems, n) && n < U32 && e.value != []
    ensures FilledElems(Allocate(elems, e, alloc, maxLinear), n + 1)
  {
    if alloc.Linear? {
      LinearIsWindow(elems, elems, e, maxLinear);
      assert forall v | v in elems + [e] :: v.value != [];
    }
  }

  lemma ApplyFilled(c: Cookie, op: CookieOp, n: nat)
    requires Filled(c.vars, n) && n < U32 && AddsValue(op)
    ensures Filled(Apply(c, op).vars, n + 1)
  {
    hide Put, Pos, Allocate;
    match op
    case SetVariable(rid, e, alloc, maxLinear) =>
      if e.value != [] {
        AllocateFilled(Elems(c.vars, rid), e, alloc, maxLinear, n);
        PutFilled(c.vars, rid, Allocate(Elems(c.vars, rid), e, alloc, maxLinear), n);
      }
    case AddElement(rid, e) => PutFilled(c.vars, rid, Elems(c.vars, rid) + [e], n);
    case _ =>
  }

  lemma {:induction false} RunFilled(c: Cookie, ops: seq<CookieOp>, n: nat)
    requires Filled(c.vars, n) && n + |ops| <= U32 && forall op | op in ops :: AddsValue(op)
    ensures Filled(ApplyAll(c, ops).vars, n + |ops|)
    decreases |ops|
  {
    if ops != [] {
      hide Apply, Filled, AddsValue;
      ApplyFilled(c, ops[0], n);
      RunFilled(Apply(c, ops[0]), ops[1..], n + 1);
    }
  }

  /**
   A cookie built by any run of fewer than 2^32 operations that never hand over a NUL, and
   never add an empty element through a handle, is codable as soon as its header fits.
   */
  lemma {:induction false} RunsAreCodable(key: Key, flags: Flags, ops: seq<CookieOp>, saveLastHit: bool)
    requires |ops| < U32 && forall op | op in ops :: NulFreeOp(op) && AddsValue(op)
    ensures var c := ApplyAll(Blank(key, flags), ops);
      WellFormed(c) && (Codable(c, saveLastHit) <==> HeaderFits(c, saveLastHit))
  {
    var blank := Blank(key, flags);
    var c := ApplyAll(blank, ops);
    RunKeepsWellFormed(blank, ops);
    ApplyAllNulFree(blank, ops);
    RunFilled(blank, ops, 0);
    SetEntriesAre(c.vars);
    forall e | e in SetEntries(c.vars)
      ensures Storable(e)
    {
      assert e in c.vars && e.elems[0] in e.elems;
    }
  }
}
