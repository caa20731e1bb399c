/**
 The serialized form as a grammar: a version header with the offset of the variables, then
 tagged fields in ascending order of tag up to a zero tag, then variable groups up to the
 invalid relation id. Printing gives the bytes `Serialize` writes; parsing is what
 `Deserialize` reads, including what it has read when it gives up.
 */
module Wire {
  import opened Bytes
  import opened VarIndex

  const VC_SERIAL_VERSION: Byte := 0
  const HEADER := 7
  const LAST_FIELD := 11

  datatype Field =
    | TimeField(id: Byte, t: Time)
    | CountField(id: Byte, n: UInt32)
    | TextField(id: Byte, s: Text)
    | IdsField(id: Byte, ids: seq<Text>)

  datatype Group = Group(rid: RelationId, count: UInt32, elems: seq<RelVar>)

  datatype Kind = TimeKind | CountKind | TextKind | IdsKind

  function KindOf(id: int): Kind {
    if id == 11 then IdsKind
    else if id == 4 || id == 9 then CountKind
    else if id == 1 || id == 2 || id == 3 || id == 5 then TimeKind
    else TextKind
  }

  // ---- Printing ------------------------------------------------------------

  function PrintTexts(ss: seq<Text>): seq<Byte> {
    if ss == [] then [] else ss[0] + [0] + PrintTexts(ss[1..])
  }

  function PrintField(f: Field): (bs: seq<Byte>)
    ensures |bs| > 0 && bs[0] == f.id
  {
    [f.id] +
    match f
    case TimeField(_, t) => LE(TimeBits(t), 8)
    case CountField(_, n) => LE(n, 4)
    case TextField(_, s) => s + [0]
    case IdsField(_, ids) => [|ids| % 256] + PrintTexts(ids)
  }

  function PrintFields(fs: seq<Field>): seq<Byte> {
    if fs == [] then [] else PrintField(fs[0]) + PrintFields(fs[1..])
  }

  function PrintElem(e: RelVar): seq<Byte> {
    e.value + [0] + LE(TimeBits(e.timestamp), 8) + [e.revision]
  }

  function PrintElems(es: seq<RelVar>): seq<Byte> {
    if es == [] then [] else PrintElem(es[0]) + PrintElems(es[1..])
  }

  function PrintGroup(g: Group): seq<Byte> {
    LE(g.rid, 2) + (LE(g.count, 4) + PrintElems(g.elems))
  }

  /** All groups and the sentinel. */
  function PrintGroups(gs: seq<Group>): seq<Byte> {
    if gs == [] then LE(INVALID_RID, 2) else PrintGroup(gs[0]) + PrintGroups(gs[1..])
  }

  function HeaderSize(fs: seq<Field>, extra: seq<Byte>): nat {
    HEADER + |PrintFields(fs)| + |extra| + 1
  }

  function Header(offset: nat): seq<Byte> {
    [VC_SERIAL_VERSION, VC_SERIAL_VERSION, 0] + LE(offset % 0x1_0000_0000, 4)
  }

  /** A whole message. `extra` stands for fields of a later version; today's serializer writes none. */
  function Layout(fs: seq<Field>, extra: seq<Byte>, gs: seq<Group>): seq<Byte> {
    Header(HeaderSize(fs, extra)) + (PrintFields(fs) + (extra + [0])) + PrintGroups(gs)
  }

  // ---- Parsing -------------------------------------------------------------

  datatype Parsed<T> = Parsed(ok: bool, items: seq<T>, pos: nat) {
    function After(item: T): Parsed<T> { this.(items := [item] + items) }
  }

  function ParseTexts(buf: seq<Byte>, pos: nat, n: nat): Parsed<Text>
    decreases n
  {
    if n == 0 then Parsed(true, [], pos)
    else
      match ReadText(buf, pos)
      case None => Parsed(false, [], pos)
      case Some(s) => ParseTexts(buf, pos + |s| + 1, n - 1).After(s)
  }

  function ReadElem(buf: seq<Byte>, pos: nat): (r: Option<RelVar>)
    ensures r.Some? ==> pos + |r.value.value| + 10 <= |buf|
  {
    match ReadText(buf, pos)
    case None => None
    case Some(s) =>
      match ReadInt(buf, pos + |s| + 1, 8)
      case None => None
      case Some(t) =>
        Widths();
        match ReadInt(buf, pos + |s| + 9, 1)
        case None => None
        case Some(r) => Some(RelVar(s, BitsTime(t), r))
  }

  function ParseElems(buf: seq<Byte>, pos: nat, n: nat): Parsed<RelVar>
    decreases n
  {
    if n == 0 then Parsed(true, [], pos)
    else
      match ReadElem(buf, pos)
      case None => Parsed(false, [], pos)
      case Some(e) => ParseElems(buf, pos + |e.value| + 10, n - 1).After(e)
  }

  /** The payload of field `id`; when an id list breaks off, the ids read up to there. */
  function ParsePayload(buf: seq<Byte>, pos: nat, id: Byte): (r: Parsed<Field>)
    ensures pos <= r.pos
  {
    Widths();
    match KindOf(id)
    case TimeKind =>
      (match ReadInt(buf, pos, 8)
       case None => Parsed(false, [], pos)
       case Some(t) => Parsed(true, [TimeField(id, BitsTime(t))], pos + 8))
    case CountKind =>
      (match ReadInt(buf, pos, 4)
       case None => Parsed(false, [], pos)
       case Some(n) => Parsed(true, [CountField(id, n)], pos + 4))
    case TextKind =>
      (match ReadText(buf, pos)
       case None => Parsed(false, [], pos)
       case Some(s) => Parsed(true, [TextField(id, s)], pos + |s| + 1))
    case IdsKind =>
      match ReadInt(buf, pos, 1)
      case None => Parsed(false, [], pos)
      case Some(n) =>
        ParseTextsAdvances(buf, pos + 1, n);
        var p := ParseTexts(buf, pos + 1, n);
        Parsed(p.ok, [IdsField(id, p.items)], p.pos)
  }

  /** The fields from tag `id` on, when the tag byte `next` has been read already. */
  function ParseFields(buf: seq<Byte>, pos: nat, next: Byte, id: Byte): Parsed<Field>
    decreases |buf| - pos, LAST_FIELD + 1 - id
  {
    if id > LAST_FIELD then Parsed(true, [], pos)
    else if next != id then ParseFields(buf, pos, next, id + 1)
    else
      var p := ParsePayload(buf, pos, id);
      if !p.ok then p
      else
        Widths();
        match ReadInt(buf, p.pos, 1)
        case None => Parsed(false, p.items, p.pos)
        case Some(next') =>
          var rest := ParseFields(buf, p.pos + 1, next', id + 1);
          rest.(items := p.items + rest.items)
  }

  function ParseGroups(buf: seq<Byte>, pos: nat): (r: Parsed<Group>)
    ensures r.ok ==> pos < r.pos
    decreases |buf| - pos
  {
    Widths();
    match ReadInt(buf, pos, 2)
    case None => Parsed(false, [], pos)
    case Some(rid) =>
      if rid == INVALID_RID then Parsed(true, [], pos + 2)
      else
        match ReadInt(buf, pos + 2, 4)
        case None => Parsed(false, [], pos)
        case Some(count) =>
          var p := ParseElems(buf, pos + 6, count);
          ParseElemsAdvances(buf, pos + 6, count);
          if !p.ok then Parsed(false, [Group(rid, count, p.items)], p.pos)
          else ParseGroups(buf, p.pos).After(Group(rid, count, p.items))
  }

  datatype Message = Message(ok: bool, fields: seq<Field>, groups: seq<Group>, end: nat)

  function Parse(buf: seq<Byte>): Message {
    Widths();
    if |buf| < HEADER + 1 || buf[1] > VC_SERIAL_VERSION then Message(false, [], [], 0)
    else
      var offset := FromLE(buf[3..7]);
      var f := ParseFields(buf, HEADER + 1, buf[HEADER], 1);
      if !f.ok || f.pos > offset then Message(false, f.items, [], 0)
      else
        var g := ParseGroups(buf, offset);
        Message(g.ok, f.items, g.items, g.pos)
  }

  lemma {:induction false} ParseTextsAdvances(buf: seq<Byte>, pos: nat, n: nat)
    ensures ParseTexts(buf, pos, n).pos >= pos
    decreases n
  {
    if n > 0 {
      match ReadText(buf, pos)
      case None =>
      case Some(s) => ParseTextsAdvances(buf, pos + |s| + 1, n - 1);
    }
  }

  lemma {:induction false} ParseElemsAdvances(buf: seq<Byte>, pos: nat, n: nat)
    ensures ParseElems(buf, pos, n).pos >= pos
    decreases n
  {
    hide ReadElem;
    if n > 0 {
      match ReadElem(buf, pos)
      case None =>
      case Some(e) => ParseElemsAdvances(buf, pos + |e.value| + 10, n - 1);
    }
  }

  // ---- Printed messages parse back -----------------------------------------

  predicate FitsElem(e: RelVar) { NulFree(e.value) }

  predicate FitsGroup(g: Group) {
    g.rid != INVALID_RID && g.count == |g.elems| && forall e | e in g.elems :: FitsElem(e)
  }

  predicate FitsField(f: Field) {
    && 1 <= f.id <= LAST_FIELD
    && match f
       case TimeField(id, _) => KindOf(id).TimeKind?
       case CountField(id, _) => KindOf(id).CountKind?
       case TextField(id, s) => KindOf(id).TextKind? && NulFree(s)
       case IdsField(id, ids) => KindOf(id).IdsKind? && |ids| < 256 && forall s | s in ids :: NulFree(s)
  }

  predicate FitsFields(fs: seq<Field>, id: int) {
    fs != [] ==> FitsField(fs[0]) && id <= fs[0].id && FitsFields(fs[1..], fs[0].id + 1)
  }

  /** Bytes a later version may add: they start with a tag that this version does not know. */
  predicate Foreign(extra: seq<Byte>) {
    extra == [] || extra[0] == 0 || extra[0] > LAST_FIELD
  }

  lemma {:induction false} ParsePrintedTexts(buf: seq<Byte>, pos: nat, ss: seq<Text>)
    requires At(buf, pos, PrintTexts(ss))
    requires forall s | s in ss :: NulFree(s)
    ensures ParseTexts(buf, pos, |ss|) == Parsed(true, ss, pos + |PrintTexts(ss)|)
    decreases |ss|
  {
    hide At, ReadText, NulFree;
    if ss != [] {
      AtSplit(buf, pos, ss[0] + [0], PrintTexts(ss[1..]));
      assert ss[0] in ss;
      ReadPrintedText(buf, pos, ss[0]);
      var p := pos + |ss[0]| + 1;
      ParsePrintedTexts(buf, p, ss[1..]);
      assert ParseTexts(buf, pos, |ss|) == ParseTexts(buf, p, |ss[1..]|).After(ss[0]);
      assert [ss[0]] + ss[1..] == ss;
    }
  }

  lemma {:induction false} OneByte(n: Byte)
    ensures LE(n, 1) == [n]
  {
  }

  lemma ReadPrintedElem(buf: seq<Byte>, pos: nat, e: RelVar)
    requires At(buf, pos, PrintElem(e)) && FitsElem(e)
    ensures ReadElem(buf, pos) == Some(e)
  {
    hide At, ReadInt, ReadText, NulFree, LE;
    Widths();
    AtSplit(buf, pos, e.value + [0] + LE(TimeBits(e.timestamp), 8), [e.revision]);
    AtSplit(buf, pos, e.value + [0], LE(TimeBits(e.timestamp), 8));
    ReadPrintedText(buf, pos, e.value);
    ReadPrintedInt(buf, pos + |e.value| + 1, TimeBits(e.timestamp), 8);
    OneByte(e.revision);
    ReadPrintedInt(buf, pos + |e.value| + 9, e.revision, 1);
  }

  lemma PrintElemSize(e: RelVar)
    ensures |PrintElem(e)| == |e.value| + 10
  {
  }

  lemma {:induction false} ParseElemsStep(buf: seq<Byte>, pos: nat, e: RelVar, rest: seq<RelVar>, end: nat)
    requires ReadElem(buf, pos) == Some(e)
    requires ParseElems(buf, pos + |e.value| + 10, |rest|) == Parsed(true, rest, end)
    ensures ParseElems(buf, pos, 1 + |rest|) == Parsed(true, [e] + rest, end)
  {
    hide ReadElem;
  }

  lemma {:induction false} ParsePrintedElems(buf: seq<Byte>, pos: nat, es: seq<RelVar>)
    requires At(buf, pos, PrintElems(es))
    requires forall i | 0 <= i < |es| :: FitsElem(es[i])
    ensures ParseElems(buf, pos, |es|) == Parsed(true, es, pos + |PrintElems(es)|)
    decreases |es|
  {
    if es != [] {
      var e, rest := es[0], es[1..];
      assert es == [e] + rest;
      assert PrintElems(es) == PrintElem(e) + PrintElems(rest);
      hide At, ReadElem, PrintElem, PrintElems, FitsElem, ParseElems;
      AtSplit(buf, pos, PrintElem(e), PrintElems(rest));
      ReadPrintedElem(buf, pos, e);
      PrintElemSize(e);
      var end := pos + |PrintElem(e)| + |PrintElems(rest)|;
      ParsePrintedElems(buf, pos + |PrintElem(e)|, rest);
      ParseElemsStep(buf, pos, e, rest, end);
    }
  }

  lemma {:induction false} ParsePrintedGroups(buf: seq<Byte>, pos: nat, gs: seq<Group>)
    requires At(buf, pos, PrintGroups(gs))
    requires forall g | g in gs :: FitsGroup(g)
    ensures ParseGroups(buf, pos) == Parsed(true, gs, pos + |PrintGroups(gs)|)
    decreases |gs|
  {
    hide At, ReadInt, ParseElems, PrintElems, LE;
    Widths();
    if gs == [] {
      ReadPrintedInt(buf, pos, INVALID_RID, 2);
    } else {
      var g := gs[0];
      assert g in gs;
      AtSplit(buf, pos, PrintGroup(g), PrintGroups(gs[1..]));
      AtSplit(buf, pos, LE(g.rid, 2), LE(g.count, 4) + PrintElems(g.elems));
      AtSplit(buf, pos + 2, LE(g.count, 4), PrintElems(g.elems));
      ReadPrintedInt(buf, pos, g.rid, 2);
      ReadPrintedInt(buf, pos + 2, g.count, 4);
      ParsePrintedElems(buf, pos + 6, g.elems);
      ParsePrintedGroups(buf, pos + |PrintGroup(g)|, gs[1..]);
    }
  }

  lemma ParsePrintedPayload(buf: seq<Byte>, pos: nat, f: Field)
    requires FitsField(f) && At(buf, pos, PrintField(f))
    ensures ParsePayload(buf, pos + 1, f.id) == Parsed(true, [f], pos + |PrintField(f)|)
  {
    hide At, ReadInt, ReadText, ParseTexts, PrintTexts, NulFree, LE;
    Widths();
    match f
    case TimeField(id, t) =>
      AtSplit(buf, pos, [id], LE(TimeBits(t), 8));
      ReadPrintedInt(buf, pos + 1, TimeBits(t), 8);
    case CountField(id, n) =>
      AtSplit(buf, pos, [id], LE(n, 4));
      ReadPrintedInt(buf, pos + 1, n, 4);
    case TextField(id, s) =>
      AtSplit(buf, pos, [id], s + [0]);
      ReadPrintedText(buf, pos + 1, s);
    case IdsField(id, ids) =>
      AtSplit(buf, pos, [id], [|ids|] + PrintTexts(ids));
      AtSplit(buf, pos + 1, [|ids|], PrintTexts(ids));
      OneByte(|ids|);
      ReadPrintedInt(buf, pos + 1, |ids|, 1);
      ParsePrintedTexts(buf, pos + 2, ids);
  }

  lemma {:induction false} ParseFieldsStep(buf: seq<Byte>, pos: nat, f: Field, end: nat)
    requires 1 <= f.id <= LAST_FIELD && ParsePayload(buf, pos, f.id) == Parsed(true, [f], end) && end < |buf|
    ensures var rest := ParseFields(buf, end + 1, buf[end], f.id + 1);
      ParseFields(buf, pos, f.id, f.id) == rest.(items := [f] + rest.items)
  {
    NextByte(buf, end);
  }

  lemma {:induction false} ParseStops(buf: seq<Byte>, pos: nat, stop: Byte, id: Byte)
    requires (stop == 0 || stop > LAST_FIELD) && 1 <= id <= LAST_FIELD + 1
    ensures ParseFields(buf, pos, stop, id) == Parsed(true, [], pos)
    decreases LAST_FIELD + 1 - id
  {
    if id <= LAST_FIELD { ParseStops(buf, pos, stop, id + 1); }
  }

  lemma {:induction false} ParseSkips(buf: seq<Byte>, pos: nat, next: Byte, id: Byte)
    requires id <= next <= LAST_FIELD
    ensures ParseFields(buf, pos, next, id) == ParseFields(buf, pos, next, next)
    decreases LAST_FIELD + 1 - id
  {
    if id < next { ParseSkips(buf, pos, next, id + 1); }
  }

  lemma {:induction false} ParsePrintedFields(buf: seq<Byte>, pos: nat, fs: seq<Field>, id: Byte, stop: Byte)
    requires FitsFields(fs, id) && (stop == 0 || stop > LAST_FIELD)
    requires At(buf, pos, PrintFields(fs) + [stop]) && 1 <= id <= LAST_FIELD + 1
    ensures ParseFields(buf, pos + 1, buf[pos], id) == Parsed(true, fs, pos + |PrintFields(fs)| + 1)
    decreases |fs|
  {
    if fs == [] {
      assert PrintFields(fs) + [stop] == [stop];
      FirstByte(buf, pos, [stop]);
      ParseStops(buf, pos + 1, stop, id);
    } else {
      var f, rest := fs[0], PrintFields(fs[1..]) + [stop];
      assert FitsFields(fs[1..], f.id + 1) && FitsField(f) && id <= f.id;
      hide At, ParsePayload, PrintField, FitsFields, ReadInt, ParseFields;
      var end := pos + |PrintField(f)|;
      Assoc(PrintField(f), PrintFields(fs[1..]), [stop]);
      AtSplit(buf, pos, PrintField(f), rest);
      FirstByte(buf, pos, PrintField(f));
      FirstByte(buf, end, rest);
      ParseSkips(buf, pos + 1, f.id, id);
      ParsePrintedPayload(buf, pos, f);
      ParsePrintedFields(buf, end, fs[1..], f.id + 1, stop);
      ParseFieldsStep(buf, pos + 1, f, end);
      assert [f] + fs[1..] == fs;
    }
  }

  lemma FirstByte(buf: seq<Byte>, pos: nat, s: seq<Byte>)
    requires At(buf, pos, s) && s != []
    ensures pos < |buf| && buf[pos] == s[0]
  {
    assert buf[pos + 0] == s[0];
  }

  lemma NextByte(buf: seq<Byte>, pos: nat)
    requires pos < |buf|
    ensures ReadInt(buf, pos, 1) == Some(buf[pos] as nat)
  {
    assert buf[pos..pos + 1] == [buf[pos]];
    assert FromLE([buf[pos]]) == buf[pos] + 256 * FromLE([buf[pos]][1..]);
  }

  /**
   The parser inverts the printer, whatever bytes follow the message and whatever fields a
   later version has added, as long as the header fits the 32-bit offset. When it does not,
   what the serializer writes is refused.
   */
  lemma {:induction false} ParseLayout(fs: seq<Field>, extra: seq<Byte>, gs: seq<Group>, tail: seq<Byte>)
    requires FitsFields(fs, 1) && Foreign(extra) && forall g | g in gs :: FitsGroup(g)
    requires HeaderSize(fs, extra) < U32 || extra == []
    ensures var m := Parse(Layout(fs, extra, gs) + tail);
      m == if HeaderSize(fs, extra) < U32 then Message(true, fs, gs, |Layout(fs, extra, gs)|)
           else Message(false, fs, [], 0)
  {
    hide At, ParseFields, ParseGroups, PrintFields, PrintGroups, Layout, Header, Parse, FitsFields, FitsGroup, FromLE;
    var buf, size, stop := Layout(fs, extra, gs) + tail, HeaderSize(fs, extra), (extra + [0])[0];
    LayoutParts(buf, fs, extra, gs, tail);
    ReadHeader(buf, size);
    ParsePrintedFields(buf, HEADER, fs, 1, stop);
    ParsePrintedGroups(buf, size, gs);
    ParseFrom(buf, size);
  }

  lemma {:induction false} LayoutParts(buf: seq<Byte>, fs: seq<Field>, extra: seq<Byte>, gs: seq<Group>,
                                       tail: seq<Byte>)
    requires buf == Layout(fs, extra, gs) + tail
    ensures At(buf, 0, Header(HeaderSize(fs, extra)))
    ensures At(buf, HEADER, PrintFields(fs) + [(extra + [0])[0]])
    ensures At(buf, HeaderSize(fs, extra), PrintGroups(gs))
    ensures |Layout(fs, extra, gs)| == HeaderSize(fs, extra) + |PrintGroups(gs)|
  {
    hide At, PrintFields, PrintGroups;
    var size, rest := HeaderSize(fs, extra), extra + [0];
    var body := PrintFields(fs) + rest;
    AtFront(Layout(fs, extra, gs), tail);
    AtSplit(buf, 0, Header(size) + body, PrintGroups(gs));
    AtSplit(buf, 0, Header(size), body);
    assert [rest[0]] + rest[1..] == rest;
    Assoc(PrintFields(fs), [rest[0]], rest[1..]);
    AtSplit(buf, HEADER, PrintFields(fs) + [rest[0]], rest[1..]);
  }

  lemma {:induction false} ParseFrom(buf: seq<Byte>, size: nat)
    requires |buf| > HEADER && buf[1] == VC_SERIAL_VERSION && FromLE(buf[3..7]) == size % 0x1_0000_0000
    requires var f := ParseFields(buf, HEADER + 1, buf[HEADER], 1);
      f.ok && f.pos <= size && (size >= U32 ==> f.pos == size)
    ensures var f := ParseFields(buf, HEADER + 1, buf[HEADER], 1).items; var g := ParseGroups(buf, size);
      Parse(buf) == if size < U32 then Message(g.ok, f, g.items, g.pos) else Message(false, f, [], 0)
  {
    hide ParseFields, ParseGroups, FromLE;
  }

  lemma ReadHeader(buf: seq<Byte>, offset: nat)
    requires At(buf, 0, Header(offset))
    ensures buf[1] == VC_SERIAL_VERSION && FromLE(buf[3..7]) == offset % 0x1_0000_0000
  {
    Widths();
    AtSplit(buf, 0, [VC_SERIAL_VERSION, VC_SERIAL_VERSION, 0], LE(offset % 0x1_0000_0000, 4));
    assert buf[0 + 1] == [VC_SERIAL_VERSION, VC_SERIAL_VERSION, 0][1];
    assert buf[3..7] == LE(offset % 0x1_0000_0000, 4);
    LERoundTrip(offset % 0x1_0000_0000, 4);
  }

  // ---- An accepted message does not depend on what follows it --------------

  lemma {:induction false} ParseTextsStable(buf: seq<Byte>, tail: seq<Byte>, pos: nat, n: nat)
    requires ParseTexts(buf, pos, n).ok
    ensures ParseTexts(buf + tail, pos, n) == ParseTexts(buf, pos, n)
    decreases n
  {
    hide ReadText;
    if n > 0 {
      ReadTextStable(buf, tail, pos);
      ParseTextsStable(buf, tail, pos + |ReadText(buf, pos).value| + 1, n - 1);
    }
  }

  lemma ReadElemStable(buf: seq<Byte>, tail: seq<Byte>, pos: nat)
    requires ReadElem(buf, pos).Some?
    ensures ReadElem(buf + tail, pos) == ReadElem(buf, pos)
  {
    ReadTextStable(buf, tail, pos);
    var s := ReadText(buf, pos).value;
    ReadIntStable(buf, tail, pos + |s| + 1, 8);
    ReadIntStable(buf, tail, pos + |s| + 9, 1);
  }

  lemma {:induction false} ParseElemsStable(buf: seq<Byte>, tail: seq<Byte>, pos: nat, n: nat)
    requires ParseElems(buf, pos, n).ok
    ensures ParseElems(buf + tail, pos, n) == ParseElems(buf, pos, n)
    decreases n
  {
    hide ReadElem;
    if n > 0 {
      ReadElemStable(buf, tail, pos);
      ParseElemsStable(buf, tail, pos + |ReadElem(buf, pos).value.value| + 10, n - 1);
    }
  }

  lemma ParsePayloadStable(buf: seq<Byte>, tail: seq<Byte>, pos: nat, id: Byte)
    requires ParsePayload(buf, pos, id).ok
    ensures ParsePayload(buf + tail, pos, id) == ParsePayload(buf, pos, id)
  {
    match KindOf(id)
    case TimeKind => ReadIntStable(buf, tail, pos, 8);
    case CountKind => ReadIntStable(buf, tail, pos, 4);
    case TextKind => ReadTextStable(buf, tail, pos);
    case IdsKind =>
      ReadIntStable(buf, tail, pos, 1);
      ParseTextsStable(buf, tail, pos + 1, ReadInt(buf, pos, 1).value);
  }

  lemma {:induction false} ParseFieldsStable(buf: seq<Byte>, tail: seq<Byte>, pos: nat, next: Byte, id: Byte)
    requires ParseFields(buf, pos, next, id).ok
    ensures ParseFields(buf + tail, pos, next, id) == ParseFields(buf, pos, next, id)
    decreases |buf| - pos, LAST_FIELD + 1 - id
  {
    if id <= LAST_FIELD {
      if next != id {
        ParseFieldsStable(buf, tail, pos, next, id + 1);
      } else {
        Widths();
        ParsePayloadStable(buf, tail, pos, id);
        var p := ParsePayload(buf, pos, id);
        ReadIntStable(buf, tail, p.pos, 1);
        ParseFieldsStable(buf, tail, p.pos + 1, ReadInt(buf, p.pos, 1).value, id + 1);
      }
    }
  }

  lemma {:induction false} ParseGroupsStable(buf: seq<Byte>, tail: seq<Byte>, pos: nat)
    requires ParseGroups(buf, pos).ok
    ensures ParseGroups(buf + tail, pos) == ParseGroups(buf, pos)
    ensures ParseGroups(buf, pos).pos <= |buf|
    decreases |buf| - pos
  {
    ReadIntStable(buf, tail, pos, 2);
    if ReadInt(buf, pos, 2).value != INVALID_RID {
      Widths();
      ReadIntStable(buf, tail, pos + 2, 4);
      var count := ReadInt(buf, pos + 2, 4).value;
      ParseElemsStable(buf, tail, pos + 6, count);
      ParseElemsAdvances(buf, pos + 6, count);
      ParseGroupsStable(buf, tail, ParseElems(buf, pos + 6, count).pos);
    }
  }

  /** An accepted buffer stays accepted, with the same meaning and the same end, when bytes are appended. */
  lemma ParseStable(buf: seq<Byte>, tail: seq<Byte>)
    requires Parse(buf).ok
    ensures Parse(buf + tail) == Parse(buf) && Parse(buf).end <= |buf|
  {
    assert (buf + tail)[3..7] == buf[3..7];
    ParseFieldsStable(buf, tail, HEADER + 1, buf[HEADER], 1);
    ParseGroupsStable(buf, tail, FromLE(buf[3..7]));
  }

  /** No accepted buffer is a proper prefix of another that ends where its message ends. */
  lemma PrefixRejected(buf: seq<Byte>, n: nat)
    requires Parse(buf).ok && Parse(buf).end == |buf| && n < |buf|
    ensures !Parse(buf[..n]).ok
  {
    assert buf[..n] + buf[n..] == buf;
    if Parse(buf[..n]).ok {
      ParseStable(buf[..n], buf[n..]);
    }
  }

  // ---- Everything parsed is NUL-free ---------------------------------------

  predicate NulFreeField(f: Field) {
    match f
    case TextField(_, s) => NulFree(s)
    case IdsField(_, ids) => forall s | s in ids :: NulFree(s)
    case _ => true
  }

  predicate NulFreeGroup(g: Group) { forall e | e in g.elems :: NulFree(e.value) }

  lemma {:induction false} ParsedTextsNulFree(buf: seq<Byte>, pos: nat, n: nat)
    ensures forall s | s in ParseTexts(buf, pos, n).items :: NulFree(s)
    decreases n
  {
    if n > 0 && ReadText(buf, pos).Some? {
      ParsedTextsNulFree(buf, pos + |ReadText(buf, pos).value| + 1, n - 1);
    }
  }

  lemma {:induction false} ParsedElemsNulFree(buf: seq<Byte>, pos: nat, n: nat)
    ensures forall e | e in ParseElems(buf, pos, n).items :: NulFree(e.value)
    decreases n
  {
    if n > 0 && ReadElem(buf, pos).Some? {
      ParsedElemsNulFree(buf, pos + |ReadElem(buf, pos).value.value| + 10, n - 1);
    }
  }

  lemma {:induction false} ParsedFieldsNulFree(buf: seq<Byte>, pos: nat, next: Byte, id: Byte)
    ensures forall f | f in ParseFields(buf, pos, next, id).items :: NulFreeField(f)
    decreases |buf| - pos, LAST_FIELD + 1 - id
  {
    if id <= LAST_FIELD {
      if next != id {
        ParsedFieldsNulFree(buf, pos, next, id + 1);
      } else {
        Widths();
        var p := ParsePayload(buf, pos, id);
        if KindOf(id).IdsKind? && ReadInt(buf, pos, 1).Some? {
          ParsedTextsNulFree(buf, pos + 1, ReadInt(buf, pos, 1).value);
        }
        assert forall f | f in p.items :: NulFreeField(f);
        if p.ok && ReadInt(buf, p.pos, 1).Some? {
          ParsedFieldsNulFree(buf, p.pos + 1, ReadInt(buf, p.pos, 1).value, id + 1);
        }
      }
    }
  }

  lemma {:induction false} ParsedGroupsNulFree(buf: seq<Byte>, pos: nat)
    ensures forall g | g in ParseGroups(buf, pos).items :: NulFreeGroup(g)
    decreases |buf| - pos
  {
    Widths();
    if ReadInt(buf, pos, 2).Some? && ReadInt(buf, pos, 2).value != INVALID_RID && ReadInt(buf, pos + 2, 4).Some? {
      var count := ReadInt(buf, pos + 2, 4).value;
      ParsedElemsNulFree(buf, pos + 6, count);
      ParseElemsAdvances(buf, pos + 6, count);
      if ParseElems(buf, pos + 6, count).ok {
        ParsedGroupsNulFree(buf, ParseElems(buf, pos + 6, count).pos);
      }
    }
  }

  lemma ParsedNulFree(buf: seq<Byte>)
    ensures forall f | f in Parse(buf).fields :: NulFreeField(f)
    ensures forall g | g in Parse(buf).groups :: NulFreeGroup(g)
  {
    if |buf| > HEADER {
      ParsedFieldsNulFree(buf, HEADER + 1, buf[HEADER], 1);
      ParsedGroupsNulFree(buf, FromLE(buf[3..7]));
    }
  }
}
