/**
 The parser of module Wire from the outside: exactly which buffers it accepts and what they
 mean, and how much it has read when a message breaks off.
 */
module WireLanguage {
  import opened Bytes
  import opened VarIndex
  import opened Wire

  // ---- What was read is what was printed -----------------------------------

  lemma ReadIntSound(buf: seq<Byte>, pos: nat, width: nat)
    requires ReadInt(buf, pos, width).Some?
    ensures At(buf, pos, LE(ReadInt(buf, pos, width).value, width))
  {
    LEOfFromLE(buf[pos..pos + width]);
  }

  lemma ReadTextSound(buf: seq<Byte>, pos: nat)
    requires ReadText(buf, pos).Some?
    ensures At(buf, pos, ReadText(buf, pos).value + [0])
  {
  }

  lemma AtJoin(buf: seq<Byte>, pos: nat, s: seq<Byte>, t: seq<Byte>)
    requires At(buf, pos, s) && At(buf, pos + |s|, t)
    ensures At(buf, pos, s + t)
  {
    forall i | 0 <= i < |s + t|
      ensures buf[pos + i] == (s + t)[i]
    {
      if i >= |s| { assert buf[pos + |s| + (i - |s|)] == t[i - |s|]; }
    }
  }

  lemma ReadElemSound(buf: seq<Byte>, pos: nat)
    requires ReadElem(buf, pos).Some?
    ensures var e := ReadElem(buf, pos).value; At(buf, pos, PrintElem(e)) && FitsElem(e)
  {
    hide At, ReadText, LE;
    Widths();
    var e := ReadElem(buf, pos).value;
    var n := |e.value|;
    ReadTextSound(buf, pos);
    ReadIntSound(buf, pos + n + 1, 8);
    ReadIntSound(buf, pos + n + 9, 1);
    BitsOfTime(ReadInt(buf, pos + n + 1, 8).value);
    OneByte(e.revision);
    AtJoin(buf, pos, e.value + [0], LE(TimeBits(e.timestamp), 8));
    AtJoin(buf, pos, e.value + [0] + LE(TimeBits(e.timestamp), 8), [e.revision]);
  }

  lemma {:induction false} ParseTextsSound(buf: seq<Byte>, pos: nat, n: nat)
    requires ParseTexts(buf, pos, n).ok && pos <= |buf|
    ensures var p := ParseTexts(buf, pos, n);
      && |p.items| == n && p.pos == pos + |PrintTexts(p.items)| && At(buf, pos, PrintTexts(p.items))
      && forall s | s in p.items :: NulFree(s)
    decreases n
  {
    hide At, ReadText, NulFree;
    if n > 0 {
      var s := ReadText(buf, pos).value;
      ReadTextSound(buf, pos);
      ParseTextsSound(buf, pos + |s| + 1, n - 1);
      var rest := ParseTexts(buf, pos + |s| + 1, n - 1).items;
      assert ([s] + rest)[1..] == rest;
      AtJoin(buf, pos, s + [0], PrintTexts(rest));
    } else {
      NothingAt(buf, pos);
    }
  }

  lemma NothingAt(buf: seq<Byte>, pos: nat)
    requires pos <= |buf|
    ensures At(buf, pos, [])
  {
  }

  lemma {:induction false} ParseElemsSound(buf: seq<Byte>, pos: nat, n: nat)
    requires ParseElems(buf, pos, n).ok && pos <= |buf|
    ensures var p := ParseElems(buf, pos, n);
      && |p.items| == n && p.pos == pos + |PrintElems(p.items)| && At(buf, pos, PrintElems(p.items))
      && forall e | e in p.items :: FitsElem(e)
    decreases n
  {
    hide At, ReadElem, FitsElem, PrintElem;
    if n > 0 {
      var e := ReadElem(buf, pos).value;
      ReadElemSound(buf, pos);
      PrintElemSize(e);
      ParseElemsSound(buf, pos + |e.value| + 10, n - 1);
      var rest := ParseElems(buf, pos + |e.value| + 10, n - 1).items;
      assert ([e] + rest)[1..] == rest;
      AtJoin(buf, pos, PrintElem(e), PrintElems(rest));
    } else {
      NothingAt(buf, pos);
    }
  }

  lemma {:induction false} ParseGroupsSound(buf: seq<Byte>, pos: nat)
    requires ParseGroups(buf, pos).ok
    ensures var p := ParseGroups(buf, pos);
      && p.pos == pos + |PrintGroups(p.items)| && At(buf, pos, PrintGroups(p.items))
      && forall g | g in p.items :: FitsGroup(g)
    decreases |buf| - pos
  {
    hide At, ReadInt, ParseElems, PrintElems, LE, FitsElem;
    Widths();
    var rid := ReadInt(buf, pos, 2).value;
    ReadIntSound(buf, pos, 2);
    if rid != INVALID_RID {
      var count := ReadInt(buf, pos + 2, 4).value;
      var p := ParseElems(buf, pos + 6, count);
      var g := Group(rid, count, p.items);
      ReadIntSound(buf, pos + 2, 4);
      ParseElemsAdvances(buf, pos + 6, count);
      ParseElemsSound(buf, pos + 6, count);
      ParseGroupsSound(buf, p.pos);
      var rest := ParseGroups(buf, p.pos).items;
      assert ([g] + rest)[1..] == rest;
      AtJoin(buf, pos + 2, LE(count, 4), PrintElems(p.items));
      AtJoin(buf, pos, LE(rid, 2), LE(count, 4) + PrintElems(p.items));
      AtJoin(buf, pos, PrintGroup(g), PrintGroups(rest));
    }
  }

  lemma ParsePayloadSound(buf: seq<Byte>, pos: nat, id: Byte)
    requires 1 <= id <= LAST_FIELD && pos < |buf| && buf[pos] == id && ParsePayload(buf, pos + 1, id).ok
    ensures var p := ParsePayload(buf, pos + 1, id);
      && |p.items| == 1 && p.items[0].id == id && FitsField(p.items[0])
      && At(buf, pos, PrintField(p.items[0])) && p.pos == pos + |PrintField(p.items[0])|
  {
    hide At, ReadInt, ReadText, ParseTexts, PrintTexts, NulFree, LE, PrintField;
    Widths();
    match KindOf(id)
    case TimeKind => TimeSound(buf, pos, id, ReadInt(buf, pos + 1, 8).value);
    case CountKind => CountSound(buf, pos, id, ReadInt(buf, pos + 1, 4).value);
    case TextKind => TextSound(buf, pos, id);
    case IdsKind => IdsSound(buf, pos, id);
  }

  lemma TimeSound(buf: seq<Byte>, pos: nat, id: Byte, n: UInt64)
    requires pos < |buf| && buf[pos] == id && ReadInt(buf, pos + 1, 8) == Some(n)
    ensures At(buf, pos, PrintField(TimeField(id, BitsTime(n)))) && |PrintField(TimeField(id, BitsTime(n)))| == 9
  {
    assert At(buf, pos, [id]);
    hide At, ReadInt, LE;
    ReadIntSound(buf, pos + 1, 8);
    BitsOfTime(n);
    AtJoin(buf, pos, [id], LE(n, 8));
  }

  lemma CountSound(buf: seq<Byte>, pos: nat, id: Byte, n: UInt32)
    requires pos < |buf| && buf[pos] == id && ReadInt(buf, pos + 1, 4) == Some(n)
    ensures At(buf, pos, PrintField(CountField(id, n))) && |PrintField(CountField(id, n))| == 5
  {
    assert At(buf, pos, [id]);
    hide At, ReadInt, LE;
    ReadIntSound(buf, pos + 1, 4);
    AtJoin(buf, pos, [id], LE(n, 4));
  }

  lemma TextSound(buf: seq<Byte>, pos: nat, id: Byte)
    requires pos < |buf| && buf[pos] == id && ReadText(buf, pos + 1).Some?
    ensures At(buf, pos, PrintField(TextField(id, ReadText(buf, pos + 1).value)))
    ensures |PrintField(TextField(id, ReadText(buf, pos + 1).value))| == |ReadText(buf, pos + 1).value| + 2
  {
    assert At(buf, pos, [id]);
    hide At, ReadText;
    ReadTextSound(buf, pos + 1);
    AtJoin(buf, pos, [id], ReadText(buf, pos + 1).value + [0]);
  }

  lemma IdsSound(buf: seq<Byte>, pos: nat, id: Byte)
    requires pos < |buf| && buf[pos] == id && ReadInt(buf, pos + 1, 1).Some?
    requires ParseTexts(buf, pos + 2, ReadInt(buf, pos + 1, 1).value).ok
    ensures var n := ReadInt(buf, pos + 1, 1).value;
      var p := ParseTexts(buf, pos + 2, n);
      var f := IdsField(id, p.items);
      && n == |p.items| < 256 && (forall s | s in p.items :: NulFree(s))
      && At(buf, pos, PrintField(f)) && p.pos == pos + |PrintField(f)|
  {
    assert At(buf, pos, [id]);
    hide At, ReadInt, ParseTexts, PrintTexts, NulFree, LE, PrintField;
    Widths();
    var n := ReadInt(buf, pos + 1, 1).value;
    var ids := ParseTexts(buf, pos + 2, n).items;
    ReadIntSound(buf, pos + 1, 1);
    OneByte(n);
    ParseTextsSound(buf, pos + 2, n);
    IdsJoin(buf, pos, id, ids);
  }

  lemma IdsJoin(buf: seq<Byte>, pos: nat, id: Byte, ids: seq<Text>)
    requires |ids| < 256 && At(buf, pos, [id]) && At(buf, pos + 1, [|ids|]) && At(buf, pos + 2, PrintTexts(ids))
    ensures At(buf, pos, PrintField(IdsField(id, ids))) && |PrintField(IdsField(id, ids))| == 2 + |PrintTexts(ids)|
  {
    hide At, PrintTexts;
    AtJoin(buf, pos + 1, [|ids|], PrintTexts(ids));
    AtJoin(buf, pos, [id], [|ids|] + PrintTexts(ids));
  }

  // ---- Fields --------------------------------------------------------------

  /** The least tag that may still follow. */
  function NextId(fs: seq<Field>, id: int): int {
    if fs == [] then id else fs[|fs| - 1].id + 1
  }

  lemma {:induction false} ParseFieldsSound(buf: seq<Byte>, pos: nat, id: Byte)
    requires 1 <= id <= LAST_FIELD + 1 && pos < |buf| && ParseFields(buf, pos + 1, buf[pos], id).ok
    ensures var p := ParseFields(buf, pos + 1, buf[pos], id);
      && FitsFields(p.items, id) && At(buf, pos, PrintFields(p.items))
      && p.pos == pos + |PrintFields(p.items)| + 1 <= |buf|
      && !(NextId(p.items, id) <= buf[p.pos - 1] <= LAST_FIELD)
    decreases |buf| - pos, LAST_FIELD + 1 - id
  {
    hide At, ParsePayload, PrintField, FitsField;
    if id > LAST_FIELD {
      NothingAt(buf, pos);
    } else if buf[pos] != id {
      ParseFieldsSound(buf, pos, id + 1);
      FitsFromEarlier(ParseFields(buf, pos + 1, buf[pos], id).items, id);
    } else {
      var p := ParsePayload(buf, pos + 1, id);
      ParsePayloadSound(buf, pos, id);
      var f := p.items[0];
      NextByte(buf, p.pos);
      ParseFieldsSound(buf, p.pos, id + 1);
      var rest := ParseFields(buf, p.pos + 1, buf[p.pos], id + 1).items;
      assert p.items + rest == [f] + rest && ([f] + rest)[1..] == rest;
      AtJoin(buf, pos, PrintField(f), PrintFields(rest));
    }
  }

  lemma FitsFromEarlier(fs: seq<Field>, id: int)
    requires FitsFields(fs, id + 1)
    ensures FitsFields(fs, id)
  {
  }

  lemma {:induction false} ParseStopsAt(buf: seq<Byte>, pos: nat, stop: Byte, id: Byte)
    requires !(id <= stop <= LAST_FIELD) && 1 <= id <= LAST_FIELD + 1
    ensures ParseFields(buf, pos, stop, id) == Parsed(true, [], pos)
    decreases LAST_FIELD + 1 - id
  {
    if id <= LAST_FIELD { ParseStopsAt(buf, pos, stop, id + 1); }
  }

  lemma FirstField(fs: seq<Field>, id: int)
    requires FitsFields(fs, id) && fs != []
    ensures FitsField(fs[0]) && id <= fs[0].id <= LAST_FIELD && FitsFields(fs[1..], fs[0].id + 1)
    ensures NextId(fs, id) == NextId(fs[1..], fs[0].id + 1)
    ensures PrintFields(fs) == PrintField(fs[0]) + PrintFields(fs[1..])
  {
  }

  // ---- Messages that break off ---------------------------------------------

  /** The texts that lie wholly within so many bytes. */
  function TextsWithin(ss: seq<Text>, room: nat): seq<Text> {
    if ss == [] || |ss[0]| + 1 > room then [] else [ss[0]] + TextsWithin(ss[1..], room - |ss[0]| - 1)
  }

  function ElemsWithin(es: seq<RelVar>, room: nat): seq<RelVar> {
    if es == [] || |es[0].value| + 10 > room then []
    else [es[0]] + ElemsWithin(es[1..], room - |es[0].value| - 10)
  }

  /** The fields that lie wholly within so many bytes; of an id list also the ids that do. */
  function FieldsWithin(fs: seq<Field>, room: nat): seq<Field> {
    if fs == [] then []
    else if |PrintField(fs[0])| <= room then [fs[0]] + FieldsWithin(fs[1..], room - |PrintField(fs[0])|)
    else if fs[0].IdsField? && room >= 2 then [IdsField(fs[0].id, TextsWithin(fs[0].ids, room - 2))]
    else []
  }

  function GroupsWithin(gs: seq<Group>, room: nat): seq<Group> {
    if gs == [] || room < 6 then []
    else if |PrintGroup(gs[0])| <= room then [gs[0]] + GroupsWithin(gs[1..], room - |PrintGroup(gs[0])|)
    else [gs[0].(elems := ElemsWithin(gs[0].elems, room - 6))]
  }

  /** `buf` is `full`, cut off. */
  ghost predicate IsPrefix(buf: seq<Byte>, full: seq<Byte>) { buf <= full }

  lemma ReadIntCut(full: seq<Byte>, buf: seq<Byte>, pos: nat, v: nat, width: nat)
    requires IsPrefix(buf, full) && ReadInt(full, pos, width) == Some(v)
    ensures ReadInt(buf, pos, width) == if pos + width <= |buf| then Some(v) else None
  {
    if pos + width <= |buf| { assert buf[pos..pos + width] == full[pos..pos + width]; }
  }

  lemma ReadTextCut(full: seq<Byte>, buf: seq<Byte>, pos: nat, s: Text)
    requires IsPrefix(buf, full) && ReadText(full, pos) == Some(s)
    ensures ReadText(buf, pos) == if pos + |s| + 1 <= |buf| then Some(s) else None
  {
    assert buf + full[|buf|..] == full;
    if ReadText(buf, pos).Some? {
      ReadTextStable(buf, full[|buf|..], pos);
    } else {
      ReadTextSound(full, pos);
    }
  }

  lemma ReadElemCut(full: seq<Byte>, buf: seq<Byte>, pos: nat, e: RelVar)
    requires IsPrefix(buf, full) && ReadElem(full, pos) == Some(e)
    ensures ReadElem(buf, pos) == if pos + |e.value| + 10 <= |buf| then Some(e) else None
  {
    hide ReadInt, ReadText;
    Widths();
    ReadTextCut(full, buf, pos, e.value);
    ReadIntCut(full, buf, pos + |e.value| + 1, ReadInt(full, pos + |e.value| + 1, 8).value, 8);
    ReadIntCut(full, buf, pos + |e.value| + 9, e.revision, 1);
  }

  lemma {:induction false} ParseTextsCut(full: seq<Byte>, buf: seq<Byte>, pos: nat, ss: seq<Text>)
    requires pos <= |buf| && IsPrefix(buf, full) && At(full, pos, PrintTexts(ss)) && forall s | s in ss :: NulFree(s)
    ensures var p := ParseTexts(buf, pos, |ss|);
      && (p.ok <==> pos + |PrintTexts(ss)| <= |buf|) && (p.ok ==> p.pos == pos + |PrintTexts(ss)|)
      && p.items == TextsWithin(ss, |buf| - pos)
    decreases |ss|
  {
    hide At, ReadText, NulFree;
    if ss != [] {
      AtSplit(full, pos, ss[0] + [0], PrintTexts(ss[1..]));
      assert ss[0] in ss;
      ReadPrintedText(full, pos, ss[0]);
      ReadTextCut(full, buf, pos, ss[0]);
      if pos + |ss[0]| + 1 <= |buf| {
        ParseTextsCut(full, buf, pos + |ss[0]| + 1, ss[1..]);
      }
    }
  }

  lemma {:induction false} ParseElemsCut(full: seq<Byte>, buf: seq<Byte>, pos: nat, es: seq<RelVar>)
    requires pos <= |buf| && IsPrefix(buf, full) && At(full, pos, PrintElems(es)) && forall e | e in es :: FitsElem(e)
    ensures var p := ParseElems(buf, pos, |es|);
      && (p.ok <==> pos + |PrintElems(es)| <= |buf|) && (p.ok ==> p.pos == pos + |PrintElems(es)|)
      && p.items == ElemsWithin(es, |buf| - pos)
    decreases |es|
  {
    hide At, ReadElem, FitsElem, PrintElem;
    if es != [] {
      AtSplit(full, pos, PrintElem(es[0]), PrintElems(es[1..]));
      assert es[0] in es;
      PrintElemSize(es[0]);
      ReadPrintedElem(full, pos, es[0]);
      ReadElemCut(full, buf, pos, es[0]);
      if pos + |es[0].value| + 10 <= |buf| {
        ParseElemsCut(full, buf, pos + |es[0].value| + 10, es[1..]);
      }
    }
  }

  lemma {:induction false} ParseGroupsCut(full: seq<Byte>, buf: seq<Byte>, pos: nat, gs: seq<Group>)
    requires pos <= |buf| && IsPrefix(buf, full) && |buf| < pos + |PrintGroups(gs)| && At(full, pos, PrintGroups(gs))
    requires forall g | g in gs :: FitsGroup(g)
    ensures !ParseGroups(buf, pos).ok && ParseGroups(buf, pos).items == GroupsWithin(gs, |buf| - pos)
    decreases |gs|
  {
    hide At, ReadInt, ParseElems, PrintElems, LE, FitsElem;
    Widths();
    if gs == [] {
      ReadPrintedInt(full, pos, INVALID_RID, 2);
      ReadIntCut(full, buf, pos, INVALID_RID, 2);
    } else {
      var g := gs[0];
      assert g in gs;
      AtSplit(full, pos, PrintGroup(g), PrintGroups(gs[1..]));
      AtSplit(full, pos, LE(g.rid, 2), LE(g.count, 4) + PrintElems(g.elems));
      AtSplit(full, pos + 2, LE(g.count, 4), PrintElems(g.elems));
      ReadPrintedInt(full, pos, g.rid, 2);
      ReadPrintedInt(full, pos + 2, g.count, 4);
      ReadIntCut(full, buf, pos, g.rid, 2);
      ReadIntCut(full, buf, pos + 2, g.count, 4);
      if pos + 6 <= |buf| {
        ParseElemsCut(full, buf, pos + 6, g.elems);
        if pos + |PrintGroup(g)| <= |buf| {
          WholeElems(g.elems, |buf| - pos - 6);
          ParseGroupsCut(full, buf, pos + |PrintGroup(g)|, gs[1..]);
        }
      }
    }
  }

  lemma ParsePayloadCut(full: seq<Byte>, buf: seq<Byte>, pos: nat, f: Field)
    requires pos < |buf| && IsPrefix(buf, full) && FitsField(f) && At(full, pos, PrintField(f))
    ensures var p := ParsePayload(buf, pos + 1, f.id); var end := pos + |PrintField(f)|;
      && (p.ok <==> end <= |buf|) && (p.ok ==> p == Parsed(true, [f], end))
      && (!p.ok ==> p.items == if f.IdsField? && pos + 2 <= |buf|
                               then [IdsField(f.id, TextsWithin(f.ids, |buf| - pos - 2))] else [])
  {
    hide At, ReadInt, ReadText, ParseTexts, PrintTexts, NulFree, LE, TextsWithin, IsPrefix;
    Widths();
    match f
    case TimeField(id, t) =>
      AtSplit(full, pos, [id], LE(TimeBits(t), 8));
      ReadPrintedInt(full, pos + 1, TimeBits(t), 8);
      ReadIntCut(full, buf, pos + 1, TimeBits(t), 8);
    case CountField(id, k) =>
      AtSplit(full, pos, [id], LE(k, 4));
      ReadPrintedInt(full, pos + 1, k, 4);
      ReadIntCut(full, buf, pos + 1, k, 4);
    case TextField(id, s) =>
      AtSplit(full, pos, [id], s + [0]);
      ReadPrintedText(full, pos + 1, s);
      ReadTextCut(full, buf, pos + 1, s);
    case IdsField(id, ids) =>
      AtSplit(full, pos, [id], [|ids|] + PrintTexts(ids));
      IdsCut(full, buf, pos + 1, ids);
  }

  lemma IdsCut(full: seq<Byte>, buf: seq<Byte>, pos: nat, ids: seq<Text>)
    requires pos <= |buf| && IsPrefix(buf, full) && |ids| < 256 && forall s | s in ids :: NulFree(s)
    requires At(full, pos, [|ids|] + PrintTexts(ids))
    ensures ReadInt(buf, pos, 1) == if pos + 1 <= |buf| then Some(|ids|) else None
    ensures pos + 1 <= |buf| ==>
      var p := ParseTexts(buf, pos + 1, |ids|);
      && (p.ok <==> pos + 1 + |PrintTexts(ids)| <= |buf|)
      && (p.ok ==> p == Parsed(true, ids, pos + 1 + |PrintTexts(ids)|))
      && p.items == TextsWithin(ids, |buf| - pos - 1)
  {
    hide At, ReadInt, ParseTexts, PrintTexts, NulFree, LE, TextsWithin, IsPrefix;
    Widths();
    AtSplit(full, pos, [|ids|], PrintTexts(ids));
    OneByte(|ids|);
    ReadPrintedInt(full, pos, |ids|, 1);
    ReadIntCut(full, buf, pos, |ids|, 1);
    if pos + 1 <= |buf| {
      ParseTextsCut(full, buf, pos + 1, ids);
      if |PrintTexts(ids)| <= |buf| - pos - 1 { WholeTexts(ids, |buf| - pos - 1); }
    }
  }

  lemma {:induction false} WholeElems(es: seq<RelVar>, room: nat)
    requires |PrintElems(es)| <= room
    ensures ElemsWithin(es, room) == es
  {
    hide PrintElem;
    if es != [] {
      PrintElemSize(es[0]);
      WholeElems(es[1..], room - |es[0].value| - 10);
      assert es == [es[0]] + es[1..];
    }
  }

  lemma {:induction false} WholeTexts(ss: seq<Text>, room: nat)
    requires |PrintTexts(ss)| <= room
    ensures TextsWithin(ss, room) == ss
  {
    if ss != [] {
      WholeTexts(ss[1..], room - |ss[0]| - 1);
      assert ss == [ss[0]] + ss[1..];
    }
  }

  /** What parsing leaves of fields that stand at `pos` when the buffer ends at `n`. */
  ghost predicate FieldsCutTo(fs: seq<Field>, pos: nat, n: nat, p: Parsed<Field>)
    requires pos < n
  {
    && (p.ok <==> pos + |PrintFields(fs)| + 1 <= n) && (p.ok ==> p.pos == pos + |PrintFields(fs)| + 1)
    && p.items == FieldsWithin(fs, n - pos)
  }

  lemma {:induction false} ParseFieldsCut(full: seq<Byte>, buf: seq<Byte>, pos: nat, fs: seq<Field>,
                                          id: Byte, stop: Byte)
    requires pos < |buf| && IsPrefix(buf, full) && FitsFields(fs, id) && 1 <= id <= LAST_FIELD + 1
    requires At(full, pos, PrintFields(fs) + [stop]) && !(NextId(fs, id) <= stop <= LAST_FIELD)
    ensures FieldsCutTo(fs, pos, |buf|, ParseFields(buf, pos + 1, full[pos], id))
    decreases |fs|
  {
    if fs == [] {
      NoFieldsCut(full, buf, pos, id, stop);
    } else {
      hide *;
      var end := pos + |PrintField(fs[0])|;
      FirstFieldAt(full, buf, pos, fs, id, stop);
      if end < |buf| {
        ParseFieldsCut(full, buf, end, fs[1..], fs[0].id + 1, stop);
        CutLater(full, buf, pos, fs);
      } else {
        CutHere(full, buf, pos, fs);
      }
    }
  }

  lemma FirstFieldAt(full: seq<Byte>, buf: seq<Byte>, pos: nat, fs: seq<Field>, id: Byte, stop: Byte)
    requires fs != [] && IsPrefix(buf, full) && FitsFields(fs, id) && 1 <= id <= LAST_FIELD + 1
    requires At(full, pos, PrintFields(fs) + [stop]) && !(NextId(fs, id) <= stop <= LAST_FIELD)
    ensures var f, rest := fs[0], fs[1..]; var end := pos + |PrintField(f)|;
      && id <= f.id <= LAST_FIELD && FitsField(f) && At(full, pos, PrintField(f))
      && FitsFields(rest, f.id + 1) && !(NextId(rest, f.id + 1) <= stop <= LAST_FIELD)
      && At(full, end, PrintFields(rest) + [stop]) && end < |full|
      && pos < |full| && ParseFields(buf, pos + 1, full[pos], id) == ParseFields(buf, pos + 1, f.id, f.id)
  {
    hide *;
    FirstField(fs, id);
    FieldsSplit(full, pos, fs, stop);
    ParseSkips(buf, pos + 1, fs[0].id, id);
  }

  lemma CutLater(full: seq<Byte>, buf: seq<Byte>, pos: nat, fs: seq<Field>)
    requires fs != [] && FitsField(fs[0]) && At(full, pos, PrintField(fs[0]))
    requires pos + |PrintField(fs[0])| < |buf| && IsPrefix(buf, full)
    requires var end := pos + |PrintField(fs[0])|;
      FieldsCutTo(fs[1..], end, |buf|, ParseFields(buf, end + 1, full[end], fs[0].id + 1))
    ensures FieldsCutTo(fs, pos, |buf|, ParseFields(buf, pos + 1, fs[0].id, fs[0].id))
  {
    assert 1 <= fs[0].id <= LAST_FIELD;
    hide *;
    var end := pos + |PrintField(fs[0])|;
    WholePayload(full, buf, pos, fs[0]);
    GoesOn(full, buf, pos, fs[0], end);
    CutToGrows(fs, pos, |buf|, ParseFields(buf, end + 1, full[end], fs[0].id + 1));
  }

  lemma WholePayload(full: seq<Byte>, buf: seq<Byte>, pos: nat, f: Field)
    requires FitsField(f) && At(full, pos, PrintField(f)) && pos + |PrintField(f)| <= |buf| && IsPrefix(buf, full)
    ensures ParsePayload(buf, pos + 1, f.id) == Parsed(true, [f], pos + |PrintField(f)|)
  {
    hide *;
    ParsePayloadCut(full, buf, pos, f);
  }

  lemma CutToGrows(fs: seq<Field>, pos: nat, n: nat, rest: Parsed<Field>)
    requires fs != [] && pos + |PrintField(fs[0])| < n && FieldsCutTo(fs[1..], pos + |PrintField(fs[0])|, n, rest)
    ensures FieldsCutTo(fs, pos, n, rest.(items := [fs[0]] + rest.items))
  {
    hide PrintField, PrintFields, FieldsWithin;
    FirstPrinted(fs);
    ParseFieldsCutStep(fs, n - pos);
  }

  lemma CutHere(full: seq<Byte>, buf: seq<Byte>, pos: nat, fs: seq<Field>)
    requires fs != [] && FitsField(fs[0]) && At(full, pos, PrintField(fs[0]))
    requires pos < |buf| && IsPrefix(buf, full) && |buf| <= pos + |PrintField(fs[0])|
    ensures FieldsCutTo(fs, pos, |buf|, ParseFields(buf, pos + 1, fs[0].id, fs[0].id))
  {
    assert 1 <= fs[0].id <= LAST_FIELD;
    hide *;
    ParsePayloadCut(full, buf, pos, fs[0]);
    ParseFieldsEnds(buf, pos + 1, fs[0].id);
    CutToEnds(fs, pos, |buf|, ParseFields(buf, pos + 1, fs[0].id, fs[0].id));
  }

  lemma CutToEnds(fs: seq<Field>, pos: nat, n: nat, p: Parsed<Field>)
    requires fs != [] && pos < n <= pos + |PrintField(fs[0])| && !p.ok
    requires var f := fs[0];
      p.items == if pos + |PrintField(f)| <= n then [f]
                 else if f.IdsField? && pos + 2 <= n then [IdsField(f.id, TextsWithin(f.ids, n - pos - 2))] else []
    ensures FieldsCutTo(fs, pos, n, p)
  {
    hide PrintField, PrintFields, FieldsWithin, TextsWithin;
    FirstPrinted(fs);
    ParseFieldsCutStep(fs, n - pos);
    NoRoom(fs[1..]);
  }

  lemma FirstPrinted(fs: seq<Field>)
    requires fs != []
    ensures PrintFields(fs) == PrintField(fs[0]) + PrintFields(fs[1..])
  {
  }

  lemma FieldsSplit(full: seq<Byte>, pos: nat, fs: seq<Field>, stop: Byte)
    requires fs != [] && At(full, pos, PrintFields(fs) + [stop])
    ensures var end := pos + |PrintField(fs[0])|;
      && At(full, pos, PrintField(fs[0])) && At(full, end, PrintFields(fs[1..]) + [stop])
      && end < |full| && full[pos] == fs[0].id
  {
    hide At, PrintField;
    var f, rest := fs[0], PrintFields(fs[1..]) + [stop];
    Assoc(PrintField(f), PrintFields(fs[1..]), [stop]);
    AtSplit(full, pos, PrintField(f), rest);
    FirstByte(full, pos, PrintField(f));
    FirstByte(full, pos + |PrintField(f)|, rest);
  }

  lemma GoesOn(full: seq<Byte>, buf: seq<Byte>, pos: nat, f: Field, end: nat)
    requires 1 <= f.id <= LAST_FIELD && end < |buf| && IsPrefix(buf, full)
    requires ParsePayload(buf, pos + 1, f.id) == Parsed(true, [f], end)
    ensures var rest := ParseFields(buf, end + 1, full[end], f.id + 1);
      ParseFields(buf, pos + 1, f.id, f.id) == rest.(items := [f] + rest.items)
  {
    assert buf[end] == full[end];
    hide *;
    ParseFieldsStep(buf, pos + 1, f, end);
  }

  lemma NoFieldsCut(full: seq<Byte>, buf: seq<Byte>, pos: nat, id: Byte, stop: Byte)
    requires pos < |buf| && IsPrefix(buf, full) && 1 <= id <= LAST_FIELD + 1
    requires At(full, pos, PrintFields([]) + [stop]) && !(id <= stop <= LAST_FIELD)
    ensures ParseFields(buf, pos + 1, full[pos], id) == Parsed(true, [], pos + 1)
    ensures PrintFields([]) == [] && FieldsWithin([], |buf| - pos) == []
  {
    assert PrintFields([]) + [stop] == [stop];
    FirstByte(full, pos, [stop]);
    ParseStopsAt(buf, pos + 1, stop, id);
  }

  lemma ParseFieldsCutStep(fs: seq<Field>, room: nat)
    requires fs != []
    ensures FieldsWithin(fs, room) ==
            if |PrintField(fs[0])| <= room then [fs[0]] + FieldsWithin(fs[1..], room - |PrintField(fs[0])|)
            else if fs[0].IdsField? && room >= 2 then [IdsField(fs[0].id, TextsWithin(fs[0].ids, room - 2))]
            else []
  {
  }

  /** Nothing is left for the tag after a payload. */
  lemma ParseFieldsEnds(buf: seq<Byte>, pos: nat, id: Byte)
    requires 1 <= id <= LAST_FIELD
    requires var p := ParsePayload(buf, pos, id); p.ok ==> p.pos >= |buf|
    ensures var p := ParseFields(buf, pos, id, id); !p.ok && p.items == ParsePayload(buf, pos, id).items
  {
    hide ParsePayload;
  }

  lemma NoRoom(fs: seq<Field>)
    ensures FieldsWithin(fs, 0) == []
  {
  }

  lemma {:induction false} WholeFields(fs: seq<Field>, room: nat)
    requires |PrintFields(fs)| <= room
    ensures FieldsWithin(fs, room) == fs
  {
    hide PrintField;
    if fs != [] {
      WholeFields(fs[1..], room - |PrintField(fs[0])|);
      assert fs == [fs[0]] + fs[1..];
    }
  }

  /** Printed fields are read back up to a tag that cannot follow them. */
  lemma ParseFieldsComplete(buf: seq<Byte>, pos: nat, fs: seq<Field>, id: Byte)
    requires FitsFields(fs, id) && At(buf, pos, PrintFields(fs)) && 1 <= id <= LAST_FIELD + 1
    requires var end := pos + |PrintFields(fs)|; end < |buf| && !(NextId(fs, id) <= buf[end] <= LAST_FIELD)
    ensures ParseFields(buf, pos + 1, buf[pos], id) == Parsed(true, fs, pos + |PrintFields(fs)| + 1)
  {
    var stop := buf[pos + |PrintFields(fs)|];
    AtJoin(buf, pos, PrintFields(fs), [stop]);
    hide At, ParseFields, FitsFields, FieldsWithin, PrintFields;
    ParseFieldsCut(buf, buf, pos, fs, id, stop);
    WholeFields(fs, |buf| - pos);
  }

  // ---- Exactly the accepted buffers ----------------------------------------

  function Offset32(b0: nat, b1: nat, b2: nat, b3: nat): nat { b0 + 0x100 * b1 + 0x1_0000 * b2 + 0x100_0000 * b3 }

  lemma OffsetIs(buf: seq<Byte>)
    requires |buf| >= 7
    ensures FromLE(buf[3..7]) == Offset32(buf[3], buf[4], buf[5], buf[6])
  {
    var b := buf[3..7];
    assert b[1..][1..][1..][1..] == [];
    assert FromLE(b[1..][1..][1..]) == buf[6];
    assert FromLE(b[1..][1..]) == buf[5] + 256 * FromLE(b[1..][1..][1..]);
    assert FromLE(b[1..]) == buf[4] + 256 * FromLE(b[1..][1..]);
  }

  /**
   A buffer is accepted with certain fields and groups exactly when these are well formed and
   stand in it: the fields, in ascending order of tag, from byte 7 on, followed by a tag that
   cannot follow them; the groups and the sentinel where the 32-bit offset in bytes 3 to 6
   says, which is behind that tag. Of the first three bytes only the second matters.
   */
  lemma AcceptsIff(buf: seq<Byte>, fs: seq<Field>, gs: seq<Group>, end: nat)
    ensures Parse(buf) == Message(true, fs, gs, end) <==>
      && |buf| >= 8 && buf[1] == 0
      && var offset := Offset32(buf[3], buf[4], buf[5], buf[6]);
         var stop := 7 + |PrintFields(fs)|;
      && FitsFields(fs, 1) && At(buf, 7, PrintFields(fs))
      && stop < |buf| && !(NextId(fs, 1) <= buf[stop] <= 11) && stop < offset
      && (forall g | g in gs :: FitsGroup(g)) && At(buf, offset, PrintGroups(gs))
      && end == offset + |PrintGroups(gs)|
  {
    hide At, ParseFields, ParseGroups, PrintFields, PrintGroups, FitsFields, FitsGroup, FromLE;
    if |buf| >= 8 {
      OffsetIs(buf);
      var offset := FromLE(buf[3..7]);
      if Parse(buf).ok {
        ParseFieldsSound(buf, 7, 1);
        ParseGroupsSound(buf, offset);
      }
      if && FitsFields(fs, 1) && At(buf, 7, PrintFields(fs))
         && 7 + |PrintFields(fs)| < |buf| && !(NextId(fs, 1) <= buf[7 + |PrintFields(fs)|] <= 11) {
        ParseFieldsComplete(buf, 7, fs, 1);
      }
      if (forall g | g in gs :: FitsGroup(g)) && At(buf, offset, PrintGroups(gs)) {
        ParsePrintedGroups(buf, offset, gs);
      }
    }
  }

  // ---- What a refused buffer leaves ----------------------------------------

  /** A version that does not promise to be readable is not looked at. */
  lemma NewerVersionIsNotRead(buf: seq<Byte>)
    requires |buf| < 8 || buf[1] > 0
    ensures !Parse(buf).ok && Parse(buf).fields == [] && Parse(buf).groups == []
  {
  }

  /** An offset that points before the end of the fields is refused after they have been read. */
  lemma OffsetBeforeEndIsRefused(buf: seq<Byte>, fs: seq<Field>)
    requires |buf| >= 8 && buf[1] == 0 && FitsFields(fs, 1) && At(buf, 7, PrintFields(fs))
    requires var stop := 7 + |PrintFields(fs)|;
      && stop < |buf| && !(NextId(fs, 1) <= buf[stop] <= 11)
      && Offset32(buf[3], buf[4], buf[5], buf[6]) <= stop
    ensures !Parse(buf).ok && Parse(buf).fields == fs && Parse(buf).groups == []
  {
    hide At, ParseFields, ParseGroups, PrintFields, FitsFields, FromLE;
    OffsetIs(buf);
    ParseFieldsComplete(buf, 7, fs, 1);
  }

  /**
   A message that is cut off anywhere is refused. What has been read by then is exactly what
   lies wholly within the part that is left: nothing of a cut header, then field by field (and
   id by id in the list of ids), then element by element.
   */
  lemma CutMessage(fs: seq<Field>, gs: seq<Group>, n: nat)
    requires FitsFields(fs, 1) && forall g | g in gs :: FitsGroup(g)
    requires HeaderSize(fs, []) < U32 && n < |Layout(fs, [], gs)|
    ensures var m := Parse(Layout(fs, [], gs)[..n]); var size := 7 + |PrintFields(fs)| + 1;
      && !m.ok
      && m.fields == (if n < 8 then [] else FieldsWithin(fs, n - 7))
      && m.groups == if n < size then [] else GroupsWithin(gs, n - size)
  {
    WholeLayout(fs, gs);
    var full := Layout(fs, [], gs);
    CutAnywhere(full, full[..n], fs, gs);
  }

  lemma CutAnywhere(full: seq<Byte>, buf: seq<Byte>, fs: seq<Field>, gs: seq<Group>)
    requires FitsFields(fs, 1) && forall g | g in gs :: FitsGroup(g)
    requires var size := 8 + |PrintFields(fs)|;
      && size < U32 && |buf| < size + |PrintGroups(gs)| && IsPrefix(buf, full)
      && At(full, 0, Header(size)) && At(full, 7, PrintFields(fs) + [0]) && At(full, size, PrintGroups(gs))
    ensures var m := Parse(buf); var size := 8 + |PrintFields(fs)|;
      && !m.ok
      && m.fields == (if |buf| < 8 then [] else FieldsWithin(fs, |buf| - 7))
      && m.groups == if |buf| < size then [] else GroupsWithin(gs, |buf| - size)
  {
    hide *;
    var size := 8 + |PrintFields(fs)|;
    if |buf| < 8 {
      NewerVersionIsNotRead(buf);
    } else {
      HeaderOfPrefix(full, size, buf);
      ParseParts(buf, size);
      FieldsOfCut(full, buf, fs);
      if |buf| >= size { ParseGroupsCut(full, buf, size, gs); }
    }
  }

  lemma FieldsOfCut(full: seq<Byte>, buf: seq<Byte>, fs: seq<Field>)
    requires 7 < |buf| && IsPrefix(buf, full) && FitsFields(fs, 1) && At(full, 7, PrintFields(fs) + [0])
    ensures var f := ParseFields(buf, 8, full[7], 1);
      && (f.ok <==> 8 + |PrintFields(fs)| <= |buf|) && (f.ok ==> f.pos == 8 + |PrintFields(fs)|)
      && f.items == FieldsWithin(fs, |buf| - 7)
  {
    TagAfter(fs, 1);
    hide At, ParseFields, PrintFields, FitsFields, FieldsWithin, NextId;
    ParseFieldsCut(full, buf, 7, fs, 1, 0);
  }

  lemma {:induction false} TagAfter(fs: seq<Field>, id: Byte)
    requires FitsFields(fs, id) && id > 0
    ensures NextId(fs, id) > 0
  {
    if fs != [] {
      assert fs[|fs| - 1].id >= 0;
    }
  }

  lemma WholeLayout(fs: seq<Field>, gs: seq<Group>)
    ensures var full, size := Layout(fs, [], gs), HeaderSize(fs, []);
      && At(full, 0, Header(size)) && At(full, 7, PrintFields(fs) + [0]) && At(full, size, PrintGroups(gs))
      && |full| == size + |PrintGroups(gs)| && size == 8 + |PrintFields(fs)|
  {
    hide At, PrintFields, PrintGroups;
    var full := Layout(fs, [], gs);
    assert full + [] == full && [] + [0] == [0];
    LayoutParts(full, fs, [], gs, []);
  }

  lemma HeaderOfPrefix(full: seq<Byte>, size: nat, buf: seq<Byte>)
    requires At(full, 0, Header(size)) && size < U32 && 8 <= |buf| && IsPrefix(buf, full)
    ensures FromLE(buf[3..7]) == size && buf[1] == 0 && buf[7] == full[7]
  {
    hide FromLE;
    ReadHeader(full, size);
    assert buf[3..7] == full[3..7];
  }

  lemma ParseParts(buf: seq<Byte>, offset: nat)
    requires |buf| >= 8 && buf[1] == 0 && FromLE(buf[3..7]) == offset
    ensures var m, f, g := Parse(buf), ParseFields(buf, 8, buf[7], 1), ParseGroups(buf, offset);
      && m.fields == f.items
      && if !f.ok || f.pos > offset then !m.ok && m.groups == [] else m.ok == g.ok && m.groups == g.items
  {
    hide ParseFields, ParseGroups, FromLE;
  }
}
