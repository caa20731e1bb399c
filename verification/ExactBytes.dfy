/**
 One cookie with something in every field, and the bytes it is serialized to, written out:
 version, offset, tags, byte order and the order of the parts of an element.
 */
module ExactBytes {
  import opened Bytes
  import opened VarIndex
  import opened VarProperties
  import opened Cookies
  import opened Wire
  import opened Codec

  const SAMPLE := Cookie(
    Key(1, 2, 3), 772, 258, 9, 3, 8, [97], [98], [99], 4, [100], [[101], [102, 103]],
    [Entry(513, [RelVar([104], -2, 7), RelVar([105], 772, 8)])], Unmodified(false))

  // ---- Integers ------------------------------------------------------------

  lemma {:induction false} ZeroLE(width: nat)
    ensures LE(0, width) == seq(width, i => 0)
  {
    if width > 0 { ZeroLE(width - 1); }
  }

  lemma {:induction false} SmallLE(n: nat, width: nat)
    requires n < 0x1_0000 && width >= 2
    ensures LE(n, width) == [n % 256, n / 256] + seq(width - 2, i => 0)
  {
    ZeroLE(width - 2);
    assert LE(n, width) == [n % 256] + LE(n / 256, width - 1);
    assert LE(n / 256, width - 1) == [n / 256] + LE(0, width - 2);
  }

  lemma {:induction false} OnesLE(width: nat)
    ensures LE(Pow256(width) - 1, width) == seq(width, i => 255)
  {
    if width > 0 {
      OnesLE(width - 1);
      var n := Pow256(width) - 1;
      assert n == 256 * (Pow256(width - 1) - 1) + 255;
      assert n % 256 == 255 && n / 256 == Pow256(width - 1) - 1;
    }
  }

  lemma {:induction false} FirstByteOfLE(m: nat, b: Byte, width: nat)
    ensures LE(256 * m + b, width + 1) == [b] + LE(m, width)
  {
    var n := 256 * m + b;
    assert n % 256 == b && n / 256 == m;
  }

  lemma MinusTwoLE()
    ensures LE(TimeBits(-2), 8) == [254, 255, 255, 255, 255, 255, 255, 255]
  {
    Widths();
    OnesLE(7);
    var m: nat := 0xFF_FFFF_FFFF_FFFF;
    assert Pow256(8) == 256 * Pow256(7);
    FirstByteOfLE(m, 254, 7);
    hide LE;
    assert TimeBits(-2) == 256 * m + 254;
  }

  lemma TimesOfSample()
    ensures LE(TimeBits(772), 8) == [4, 3, 0, 0, 0, 0, 0, 0] && LE(TimeBits(258), 8) == [2, 1, 0, 0, 0, 0, 0, 0]
  {
    SmallLE(772, 8);
    SmallLE(258, 8);
  }

  lemma CountsOfSample()
    ensures LE(3, 4) == [3, 0, 0, 0] && LE(4, 4) == [4, 0, 0, 0] && LE(2, 4) == [2, 0, 0, 0]
    ensures LE(513, 2) == [1, 2] && LE(0xFFFF, 2) == [255, 255]
    ensures LE(73, 4) == [73, 0, 0, 0] && LE(64, 4) == [64, 0, 0, 0]
  {
    SmallLE(3, 4);
    SmallLE(4, 4);
    SmallLE(2, 4);
    SmallLE(513, 2);
    SmallLE(0xFFFF, 2);
    SmallLE(73, 4);
    SmallLE(64, 4);
  }

  // ---- Fields --------------------------------------------------------------

  lemma Flatten(a: seq<Byte>, b: seq<Byte>, c: seq<Byte>, d: seq<Byte>, e: seq<Byte>, rest: seq<Byte>)
    ensures a + (b + (c + (d + (e + rest)))) == a + b + c + d + e + rest
  {
    Assoc(a + b + c + d, e, rest);
    Assoc(a + b + c, d, e + rest);
    Assoc(a + b, c, d + (e + rest));
    Assoc(a, b, c + (d + (e + rest)));
  }

  /** The bytes from one tag on. */
  function PrintedFrom(id: Byte, saveLastHit: bool): seq<Byte> {
    PrintFields(FieldsFrom(SAMPLE, id, saveLastHit))
  }

  /** The bytes under one tag. */
  function Printed(id: Byte, saveLastHit: bool): seq<Byte> {
    match FieldOf(SAMPLE, id, saveLastHit) case None => [] case Some(f) => PrintField(f)
  }

  lemma OneMore(id: Byte, saveLastHit: bool)
    requires 1 <= id <= LAST_FIELD
    ensures PrintedFrom(id, saveLastHit) == Printed(id, saveLastHit) + PrintedFrom(id + 1, saveLastHit)
  {
    hide FieldOf, PrintField;
    var rest := FieldsFrom(SAMPLE, id + 1, saveLastHit);
    match FieldOf(SAMPLE, id, saveLastHit)
    case None =>
    case Some(f) => assert ([f] + rest)[1..] == rest;
  }

  lemma NoneLeft(saveLastHit: bool)
    ensures PrintedFrom(12, saveLastHit) == []
  {
  }

  lemma TimeTags(saveLastHit: bool)
    ensures Printed(1, saveLastHit) == [1, 4, 3, 0, 0, 0, 0, 0, 0]
    ensures Printed(2, saveLastHit) == if saveLastHit then [2, 2, 1, 0, 0, 0, 0, 0, 0] else []
    ensures Printed(3, saveLastHit) == [3, 2, 1, 0, 0, 0, 0, 0, 0]
    ensures Printed(5, saveLastHit) == [5, 2, 1, 0, 0, 0, 0, 0, 0]
  {
    TimesOfSample();
    hide LE;
  }

  lemma CountTags(saveLastHit: bool)
    ensures Printed(4, saveLastHit) == [4, 3, 0, 0, 0] && Printed(9, saveLastHit) == [9, 4, 0, 0, 0]
  {
    CountsOfSample();
    hide LE;
  }

  lemma TextTags(saveLastHit: bool)
    ensures Printed(6, saveLastHit) == [6, 97, 0] && Printed(7, saveLastHit) == [7, 98, 0]
    ensures Printed(8, saveLastHit) == [8, 99, 0] && Printed(10, saveLastHit) == [10, 100, 0]
  {
  }

  lemma TwoTexts(s: Text, t: Text)
    ensures PrintTexts([s, t]) == s + [0] + (t + [0])
  {
    var none: seq<Text> := [];
    assert [s, t][1..] == [t] && [t][1..] == none;
    Ended(t + [0]);
    assert PrintTexts([t]) == t + [0] + PrintTexts(none);
  }

  lemma IdsTag(saveLastHit: bool)
    ensures Printed(11, saveLastHit) == [11, 2, 101, 0, 102, 103, 0]
  {
    assert SAMPLE.purchaseIds[..2] == SAMPLE.purchaseIds == [[101], [102, 103]];
    TwoTexts([101], [102, 103]);
    hide PrintTexts;
    assert [11] + ([2] + ([101] + [0] + ([102, 103] + [0]))) == [11, 2, 101, 0, 102, 103, 0];
  }

  lemma LaterFields(saveLastHit: bool)
    ensures PrintedFrom(6, saveLastHit)
         == [6, 97, 0] + [7, 98, 0] + [8, 99, 0] + [9, 4, 0, 0, 0] + [10, 100, 0] + [11, 2, 101, 0, 102, 103, 0]
  {
    OneMore(6, saveLastHit);
    OneMore(7, saveLastHit);
    OneMore(8, saveLastHit);
    OneMore(9, saveLastHit);
    OneMore(10, saveLastHit);
    OneMore(11, saveLastHit);
    NoneLeft(saveLastHit);
    CountTags(saveLastHit);
    TextTags(saveLastHit);
    IdsTag(saveLastHit);
    hide Printed, PrintedFrom;
    Flatten([6, 97, 0], [7, 98, 0], [8, 99, 0], [9, 4, 0, 0, 0], [10, 100, 0], PrintedFrom(11, saveLastHit));
    Ended(Printed(11, saveLastHit));
  }

  lemma Ended(s: seq<Byte>)
    ensures s + [] == s
  {
  }

  lemma AllFields(saveLastHit: bool)
    ensures PrintFields(Fields(SAMPLE, saveLastHit))
         == [1, 4, 3, 0, 0, 0, 0, 0, 0]
            + (if saveLastHit then [2, 2, 1, 0, 0, 0, 0, 0, 0] else [])
            + [3, 2, 1, 0, 0, 0, 0, 0, 0]
            + [4, 3, 0, 0, 0]
            + [5, 2, 1, 0, 0, 0, 0, 0, 0]
            + PrintedFrom(6, saveLastHit)
  {
    assert PrintFields(Fields(SAMPLE, saveLastHit)) == PrintedFrom(1, saveLastHit);
    OneMore(1, saveLastHit);
    OneMore(2, saveLastHit);
    OneMore(3, saveLastHit);
    OneMore(4, saveLastHit);
    OneMore(5, saveLastHit);
    TimeTags(saveLastHit);
    CountTags(saveLastHit);
    hide Printed, PrintedFrom;
    Flatten([1, 4, 3, 0, 0, 0, 0, 0, 0], Printed(2, saveLastHit), [3, 2, 1, 0, 0, 0, 0, 0, 0], [4, 3, 0, 0, 0],
            [5, 2, 1, 0, 0, 0, 0, 0, 0], PrintedFrom(6, saveLastHit));
  }

  // ---- Variables -----------------------------------------------------------

  lemma ElementsOfSample()
    ensures PrintElem(RelVar([104], -2, 7)) == [104, 0] + [254, 255, 255, 255, 255, 255, 255, 255] + [7]
    ensures PrintElem(RelVar([105], 772, 8)) == [105, 0] + [4, 3, 0, 0, 0, 0, 0, 0] + [8]
  {
    MinusTwoLE();
    TimesOfSample();
    hide LE;
    assert [104] + [0] == [104, 0] && [105] + [0] == [105, 0];
  }

  lemma TwoElements(e: RelVar, f: RelVar)
    ensures PrintElems([e, f]) == PrintElem(e) + PrintElem(f)
  {
    hide PrintElem;
    var none: seq<RelVar> := [];
    assert [e, f][1..] == [f] && [f][1..] == none;
    Ended(PrintElem(f));
    assert PrintElems([f]) == PrintElem(f) + PrintElems(none);
  }

  lemma OneGroup(g: Group)
    ensures PrintGroups([g]) == PrintGroup(g) + LE(INVALID_RID, 2)
  {
    var none: seq<Group> := [];
    assert [g][1..] == none;
    assert PrintGroups(none) == LE(INVALID_RID, 2);
  }

  lemma GroupOfSample()
    ensures GroupsOf(SetEntries(SAMPLE.vars)) == [Group(513, 2, SAMPLE.vars[0].elems)]
  {
    var none: seq<Entry> := [];
    assert SAMPLE.vars[1..] == none && SetEntries(none) == none && GroupsOf(none) == [];
    assert SetEntries(SAMPLE.vars) == SAMPLE.vars;
    assert Counted(SAMPLE.vars[0].elems) == SAMPLE.vars[0].elems;
  }

  lemma VariablesOfSample()
    ensures PrintGroups(GroupsOf(SetEntries(SAMPLE.vars)))
         == [1, 2] + ([2, 0, 0, 0]
            + (([104, 0] + [254, 255, 255, 255, 255, 255, 255, 255] + [7])
               + ([105, 0] + [4, 3, 0, 0, 0, 0, 0, 0] + [8])))
            + [255, 255]
  {
    GroupOfSample();
    OneGroup(Group(513, 2, SAMPLE.vars[0].elems));
    TwoElements(RelVar([104], -2, 7), RelVar([105], 772, 8));
    ElementsOfSample();
    CountsOfSample();
    hide LE, PrintElem, PrintElems, GroupsOf, SetEntries, PrintGroups;
  }

  // ---- The whole cookie ----------------------------------------------------

  /** What `Serialize` writes: header, fields in order of their tags with a zero at the end, variables, sentinel. */
  lemma SampleBytes(saveLastHit: bool)
    ensures Encode(SAMPLE, saveLastHit)
         == ([0, 0, 0] + [if saveLastHit then 73 else 64, 0, 0, 0])
            + (([1, 4, 3, 0, 0, 0, 0, 0, 0]
                + (if saveLastHit then [2, 2, 1, 0, 0, 0, 0, 0, 0] else [])
                + [3, 2, 1, 0, 0, 0, 0, 0, 0]
                + [4, 3, 0, 0, 0]
                + [5, 2, 1, 0, 0, 0, 0, 0, 0]
                + ([6, 97, 0] + [7, 98, 0] + [8, 99, 0]
                   + [9, 4, 0, 0, 0]
                   + [10, 100, 0]
                   + [11, 2, 101, 0, 102, 103, 0]))
               + [0])
            + ([1, 2] + ([2, 0, 0, 0]
               + (([104, 0] + [254, 255, 255, 255, 255, 255, 255, 255] + [7])
                  + ([105, 0] + [4, 3, 0, 0, 0, 0, 0, 0] + [8])))
               + [255, 255])
  {
    AllFields(saveLastHit);
    LaterFields(saveLastHit);
    VariablesOfSample();
    CountsOfSample();
    hide PrintFields, PrintGroups, LE, Fields, GroupsOf, SetEntries, PrintedFrom;
    assert [] + [0] == [0];
  }
}
