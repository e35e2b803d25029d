/**
 * Worked instances of the codec: the four-field packet of test/test_simple.py with its
 * 12-byte encoding, the version-gated packet of test/test_versioned.py, and the inputs
 * that separate the behaviour as written from the corrected behaviour in fields.py and
 * base.py.
 */
module Scenarios {
  import opened Common
  import opened PyStruct
  import opened Fields
  import opened Schema
  import opened Codec
  import opened Packet
  import opened Framing

  // ---------------------------------------------------------------- test_simple

  const TestA := Field("testa", 1, UShortKind, 0, false, VNone)
  const TestB := Field("testb", 2, UIntKind, 0, false, VNone)
  const TestC := Field("testc", 100, UShortKind, 0, false, VNone)
  const TestD := Field("testd", 3, UIntKind, 0, false, VNone)

  /** The fields as declared, and in ordering order. */
  const SimpleFields := [TestA, TestB, TestC, TestD]
  const SimpleSorted := [TestA, TestB, TestD, TestC]

  /** The one parsing field all four merge into: "<HIIH", 12 bytes, 4 items. */
  const SimpleGroup := ParsingField(TestA, [TestB, TestD, TestC], [UShort, UInt, UInt, UShort], 12, 4)

  const SimpleClass := PacketClass("TestPacket", -1, InitialOptions[Virtual := 1], Some(map[Virtual := 1]),
                                   SimpleFields, SimpleSorted, [SimpleGroup], true)

  /** TestPacket(testa=0, testb=256, testc=0, testd=50332160). */
  const SimpleInstance: Instance :=
    map["testa" := VInt(0), "testb" := VInt(256), "testc" := VInt(0), "testd" := VInt(50332160)]

  /** '\x00\x00\x00\x01\x00\x00\x00\x02\x00\x03\x00\x00'. */
  const SimpleBytes: seq<byte> := [0, 0, 0, 1, 0, 0, 0, 2, 0, 3, 0, 0]

  lemma SortCons(f: Field, rest: seq<Field>)
    ensures SortByOrdering([f] + rest) == InsertByOrdering(f, SortByOrdering(rest))
  {
    assert ([f] + rest)[0] == f && ([f] + rest)[1..] == rest;
  }

  lemma InsertAfter(f: Field, g: Field, rest: seq<Field>)
    requires g.ordering < f.ordering
    ensures InsertByOrdering(f, [g] + rest) == [g] + InsertByOrdering(f, rest)
  {
    assert ([g] + rest)[0] == g && ([g] + rest)[1..] == rest;
  }

  lemma SortSwapTwo(c: Field, d: Field)
    requires d.ordering < c.ordering
    ensures SortByOrdering([c, d]) == [d, c]
  {
    SortCons(d, []);
    assert [d] + [] == [d];
    SortCons(c, [d]);
    InsertAfter(c, d, []);
    assert [d] + [c] == [d, c];
  }

  lemma SortConsFront(a: Field, rest: seq<Field>, sorted: seq<Field>)
    requires SortByOrdering(rest) == sorted && sorted != [] && a.ordering <= sorted[0].ordering
    ensures SortByOrdering([a] + rest) == [a] + sorted
  {
    SortCons(a, rest);
    InsertFront(a, sorted);
  }

  lemma SortSecondLast(b: Field, c: Field, d: Field)
    requires b.ordering <= d.ordering < c.ordering
    ensures SortByOrdering([b, c, d]) == [b, d, c]
  {
    SortSwapTwo(c, d);
    SortConsFront(b, [c, d], [d, c]);
    assert [b] + [c, d] == [b, c, d] && [b] + [d, c] == [b, d, c];
  }

  lemma SortFourFront(a: Field, b: Field, c: Field, d: Field, sorted: seq<Field>)
    requires SortByOrdering([b, c, d]) == sorted && sorted != [] && a.ordering <= sorted[0].ordering
    ensures SortByOrdering([a, b, c, d]) == [a] + sorted
  {
    var s := [a, b, c, d];
    assert s[0] == a && s[1..] == [b, c, d];
    InsertFront(a, sorted);
  }

  /** Four fields whose third sorts last: the stable sort moves it behind the fourth. */
  lemma SortThirdLast(a: Field, b: Field, c: Field, d: Field)
    requires a.ordering <= b.ordering <= d.ordering < c.ordering
    ensures SortByOrdering([a, b, c, d]) == [a, b, d, c]
  {
    SortSecondLast(b, c, d);
    SortFourFront(a, b, c, d, [b, d, c]);
    ConsThree(a, b, d, c);
  }

  lemma ConsThree<T>(a: T, b: T, c: T, d: T)
    ensures [a] + [b, c, d] == [a, b, c, d]
  {
  }

  /** Sorting by ordering puts testc (ordering 100) last, and keeps all four fields. */
  lemma SimpleSort()
    ensures SortByOrdering(SimpleFields) == SimpleSorted
    ensures |SimpleSorted| == 4 && SimpleSorted[3].name == "testc"
  {
    SortThirdLast(TestA, TestB, TestC, TestD);
  }

  /** One step of the merge loop where the last leader accepts the next field. */
  lemma MergeInto(r: MergeRule, init: seq<ParsingField>, g: ParsingField, f: Field, rest: seq<Field>)
    requires CanMerge(r, g.leader, f)
    ensures MergeFrom(r, [f] + rest, init + [g]) == MergeFrom(r, rest, init + [g.(neighbours := g.neighbours + [f])])
  {
    var acc := init + [g];
    assert ([f] + rest)[0] == f && ([f] + rest)[1..] == rest;
    assert Last(acc) == g && acc[..|acc| - 1] == init;
  }

  /** The four adjacent, ungated struct fields merge into one parsing field. */
  lemma SimpleMerge()
    ensures MergeRuns(SameVersionStruct, SimpleSorted) == [ParsingField(TestA, [TestB, TestD, TestC], [], 0, 0)]
  {
    var r := SameVersionStruct;
    var fs := SimpleSorted;
    assert fs[0] == TestA && fs[1..] == [TestB, TestD, TestC];
    assert MergeFrom(r, fs, []) == MergeFrom(r, [TestB, TestD, TestC], [] + [StartGroup(TestA)]);
    MergeInto(r, [], StartGroup(TestA), TestB, [TestD, TestC]);
    assert [TestB] + [TestD, TestC] == [TestB, TestD, TestC];
    var g2 := ParsingField(TestA, [TestB], [], 0, 0);
    assert StartGroup(TestA).(neighbours := StartGroup(TestA).neighbours + [TestB]) == g2;
    MergeInto(r, [], g2, TestD, [TestC]);
    assert [TestD] + [TestC] == [TestD, TestC];
    var g3 := ParsingField(TestA, [TestB, TestD], [], 0, 0);
    assert g2.(neighbours := g2.neighbours + [TestD]) == g3;
    MergeInto(r, [], g3, TestC, []);
    assert [TestC] + [] == [TestC];
    var g4 := ParsingField(TestA, [TestB, TestD, TestC], [], 0, 0);
    assert g3.(neighbours := g3.neighbours + [TestC]) == g4;
    assert [] + [g4] == [g4];
  }

  /** The members' codes, "H", "I", "I", "H", and their sizes. */
  lemma SimpleCodes()
    ensures forall k :: 0 <= k < 4 ==> ParseCodes(SimpleSorted[k].kind.structType).Success?
    ensures MemberCodes(SimpleSorted) == [UShort, UInt, UInt, UShort]
    ensures Size([UShort, UInt, UInt, UShort]) == 12 && TotalCount(SimpleSorted) == 4
  {
    ParseOne('H', UShort);
    ParseOne('I', UInt);
    assert "H" == ['H'] && "I" == ['I'];
    var fs := SimpleSorted;
    assert fs[1..] == [TestB, TestD, TestC] && [TestB, TestD, TestC][1..] == [TestD, TestC];
    assert [TestD, TestC][1..] == [TestC] && [TestC][1..] == [];
    assert MemberCodes([]) == [] && TotalCount([]) == 0;
    assert MemberCodes([TestC]) == [UShort];
    assert MemberCodes([TestD, TestC]) == [UInt, UShort];
    assert MemberCodes([TestB, TestD, TestC]) == [UInt, UInt, UShort];
    var l := [UShort, UInt, UInt, UShort];
    assert l[1..] == [UInt, UInt, UShort] && l[1..][1..] == [UInt, UShort] && l[1..][1..][1..] == [UShort];
    assert [UShort][1..] == [] && Size([]) == 0;
    assert Width(UShort) == 2 && Width(UInt) == 4;
    assert Size([UShort]) == 2;
    assert Size([UInt, UShort]) == 6;
    assert Size([UInt, UInt, UShort]) == 10;
    assert TotalCount([TestC]) == 1 && TotalCount([TestD, TestC]) == 2 && TotalCount([TestB, TestD, TestC]) == 3;
  }

  /** Preparing the merged group gives the "<HIIH" layout, and preparing it again changes nothing. */
  lemma SimpleGroupPrepared()
    ensures WellFormed(ParsingField(TestA, [TestB, TestD, TestC], [], 0, 0))
    ensures PrepareGroupSpec(ParsingField(TestA, [TestB, TestD, TestC], [], 0, 0)) == Success(SimpleGroup)
    ensures IsPrepared(SimpleGroup)
  {
    SimpleCodes();
    var g := ParsingField(TestA, [TestB, TestD, TestC], [], 0, 0);
    assert Members(g) == SimpleSorted && Members(SimpleGroup) == SimpleSorted;
    PrepareGroupLayout(g);
    PrepareGroupLayout(SimpleGroup);
  }

  /** Preparing the single merged group succeeds with the "<HIIH" layout. */
  lemma SimplePrepareAll()
    ensures forall j :: 0 <= j < 1 ==> WellFormed([ParsingField(TestA, [TestB, TestD, TestC], [], 0, 0)][j])
    ensures PrepareAllSpec([ParsingField(TestA, [TestB, TestD, TestC], [], 0, 0)]) == Success([SimpleGroup])
  {
    SimpleGroupPrepared();
    var g := ParsingField(TestA, [TestB, TestD, TestC], [], 0, 0);
    assert [g][0] == g && [g][1..] == [] && PrepareAllSpec([]) == Success([]);
    assert [SimpleGroup] + [] == [SimpleGroup];
  }

  /** TestPacket as the class statement prepares it: sorted, merged into one group, laid out as "<HIIH". */
  lemma SimplePrepared()
    ensures PreparedFrom(SimpleClass) && IsPrepared(SimpleGroup)
    ensures AllWellFormed(SimpleClass.parsingFields)
  {
    SimpleSort();
    SimpleMerge();
    SimpleGroupPrepared();
    SimplePrepareAll();
    PreparedFromSteps(SimpleClass, [ParsingField(TestA, [TestB, TestD, TestC], [], 0, 0)]);
  }

  /** A class is prepared from its fields when its sort, merge and layout steps each give what it holds. */
  lemma PreparedFromSteps(cls: PacketClass, merged: seq<ParsingField>)
    requires SortByOrdering(cls.fields) == cls.fieldsSorted
    requires MergeRuns(SameVersionStruct, cls.fieldsSorted) == merged
    requires forall j :: 0 <= j < |merged| ==> WellFormed(merged[j])
    requires PrepareAllSpec(merged) == Success(cls.parsingFields)
    ensures PreparedFrom(cls)
  {
  }

  /** The four attribute names, as the class declares them and as the instance holds them. */
  lemma SimpleNames()
    ensures NamesOf(SimpleFields) == SimpleInstance.Keys
    ensures NamesOf(Members(SimpleGroup)) == SimpleInstance.Keys
  {
    var fs := SimpleFields;
    assert fs[0].name == "testa" && fs[1].name == "testb" && fs[2].name == "testc" && fs[3].name == "testd";
    var ms := Members(SimpleGroup);
    assert ms == SimpleSorted;
    assert ms[0].name == "testa" && ms[1].name == "testb" && ms[2].name == "testd" && ms[3].name == "testc";
  }

  lemma PowersOfByte()
    ensures Pow256(2) == 65536 && Pow256(4) == 4294967296
  {
    assert Pow256(0) == 1 && Pow256(1) == 256 && Pow256(2) == 65536 && Pow256(3) == 16777216;
  }

  /** Every value of the instance fits its field's struct code. */
  lemma SimpleFits()
    ensures InstanceFits(SimpleFields, SimpleInstance)
    ensures MembersFit(Members(SimpleGroup), SimpleInstance)
  {
    ParseOne('H', UShort);
    ParseOne('I', UInt);
    assert "H" == ['H'] && "I" == ['I'];
    PowersOfByte();
    assert FieldFits(TestA, VInt(0)) && FieldFits(TestC, VInt(0));
    assert FieldFits(TestB, VInt(256)) && FieldFits(TestD, VInt(50332160));
    assert Members(SimpleGroup) == SimpleSorted;
  }

  /** The items write_bytes gathers: one per member, in sorted order. */
  lemma SimpleRuns()
    ensures MembersFit(Members(SimpleGroup), SimpleInstance)
    ensures Runs(Members(SimpleGroup), SimpleInstance) == [VInt(0), VInt(256), VInt(50332160), VInt(0)]
  {
    SimpleFits();
    var ms := Members(SimpleGroup);
    var d := SimpleInstance;
    assert ms == [TestA, TestB, TestD, TestC];
    assert ms[1..] == [TestB, TestD, TestC] && ms[1..][1..] == [TestD, TestC] && ms[1..][1..][1..] == [TestC];
    assert ms[1..][1..][1..][1..] == [];
    MembersFitTail(ms, d);
    MembersFitTail(ms[1..], d);
    MembersFitTail(ms[1..][1..], d);
    MembersFitTail(ms[1..][1..][1..], d);
    assert Runs([], d) == [];
    assert Runs([TestC], d) == [VInt(0)];
    assert Runs([TestD, TestC], d) == [VInt(50332160), VInt(0)];
    assert Runs([TestB, TestD, TestC], d) == [VInt(256), VInt(50332160), VInt(0)];
  }

  lemma LittleEndianSamples()
    ensures LittleEndian(0, 2) == [0, 0]
    ensures LittleEndian(256, 4) == [0, 1, 0, 0]
    ensures LittleEndian(50332160, 4) == [0, 2, 0, 3]
  {
    assert LittleEndian(0, 0) == [] && LittleEndian(0, 1) == [0];
    assert LittleEndian(0, 2) == [0] + [0];
    assert LittleEndian(0, 3) == [0] + [0, 0];
    assert LittleEndian(1, 3) == [1] + [0, 0];
    assert LittleEndian(256, 4) == [0] + [1, 0, 0];
    assert LittleEndian(3, 1) == [3] + [];
    assert LittleEndian(768, 2) == [0] + [3];
    assert LittleEndian(196608 + 2, 3) == [2] + [0, 3];
    assert LittleEndian(50332160, 4) == [0] + [2, 0, 3];
  }

  lemma PackAllCons(c: Code, x: Value, l: seq<Code>, v: seq<Value>, head: seq<byte>, tail: seq<byte>)
    requires |l| == |v| && PackOne(c, x) == Success(head) && PackAll(l, v) == Success(tail)
    ensures PackAll([c] + l, [x] + v) == Success(head + tail)
  {
    assert ([c] + l)[0] == c && ([c] + l)[1..] == l && ([x] + v)[0] == x && ([x] + v)[1..] == v;
  }

  /** struct.pack('<HIIH', 0, 256, 50332160, 0). */
  lemma SimplePack()
    ensures Pack([UShort, UInt, UInt, UShort], [VInt(0), VInt(256), VInt(50332160), VInt(0)]) == Success(SimpleBytes)
  {
    PowersOfByte();
    LittleEndianSamples();
    assert PackOne(UShort, VInt(0)) == Success([0, 0]);
    assert PackOne(UInt, VInt(256)) == Success([0, 1, 0, 0]);
    assert PackOne(UInt, VInt(50332160)) == Success([0, 2, 0, 3]);
    PackAllCons(UShort, VInt(0), [], [], [0, 0], []);
    assert [UShort] + [] == [UShort] && [VInt(0)] + [] == [VInt(0)] && [0, 0] + [] == [0, 0];
    PackAllCons(UInt, VInt(50332160), [UShort], [VInt(0)], [0, 2, 0, 3], [0, 0]);
    assert [UInt] + [UShort] == [UInt, UShort] && [VInt(50332160)] + [VInt(0)] == [VInt(50332160), VInt(0)];
    assert [0, 2, 0, 3] + [0, 0] == [0, 2, 0, 3, 0, 0];
    PackAllCons(UInt, VInt(256), [UInt, UShort], [VInt(50332160), VInt(0)], [0, 1, 0, 0], [0, 2, 0, 3, 0, 0]);
    assert [UInt] + [UInt, UShort] == [UInt, UInt, UShort];
    assert [VInt(256)] + [VInt(50332160), VInt(0)] == [VInt(256), VInt(50332160), VInt(0)];
    assert [0, 1, 0, 0] + [0, 2, 0, 3, 0, 0] == [0, 1, 0, 0, 0, 2, 0, 3, 0, 0];
    PackAllCons(UShort, VInt(0), [UInt, UInt, UShort], [VInt(256), VInt(50332160), VInt(0)],
                [0, 0], [0, 1, 0, 0, 0, 2, 0, 3, 0, 0]);
    assert [UShort] + [UInt, UInt, UShort] == [UShort, UInt, UInt, UShort];
    assert [VInt(0)] + [VInt(256), VInt(50332160), VInt(0)] == [VInt(0), VInt(256), VInt(50332160), VInt(0)];
    assert [0, 0] + [0, 1, 0, 0, 0, 2, 0, 3, 0, 0] == SimpleBytes;
  }

  /** The dictionary to_data hands to write_bytes is the instance itself. */
  lemma SimpleData()
    ensures DataOf(SimpleFields, SimpleInstance) == SimpleInstance
  {
    SimpleNames();
  }

  /** write_bytes of the one parsing field: the twelve bytes. */
  lemma SimpleWriteBytes()
    ensures WellFormed(SimpleGroup)
    ensures WriteBytesSpec(SimpleGroup, SimpleInstance) == Success(SimpleBytes)
  {
    SimpleRuns();
    SimplePack();
    GatherRuns(Members(SimpleGroup), SimpleInstance, []);
    assert [] + Runs(Members(SimpleGroup), SimpleInstance) == [VInt(0), VInt(256), VInt(50332160), VInt(0)];
  }

  /** An ungated parsing field alone encodes as its own write_bytes, whatever the version. */
  lemma EncodeUngated(g: ParsingField, data: map<string, Value>, version: Value)
    requires WellFormed(g) && g.leader.requiredVersion == 0
    ensures AllWellFormed([g])
    ensures Encode([g], data, Some(version)) == WriteBytesSpec(g, data)
  {
    assert [g][0] == g && [g][1..] == [];
    var w := WriteBytesSpec(g, data);
    if w.Success? {
      assert w.value + [] == w.value;
    }
  }

  /** to_data on the instance gives the twelve bytes of test_simple. */
  lemma SimpleWrite()
    ensures AllWellFormed(SimpleClass.parsingFields)
    ensures ToDataSpec(SimpleClass, SimpleInstance, None) == Success(SimpleBytes)
  {
    SimpleData();
    SimpleWriteBytes();
    EncodeUngated(SimpleGroup, SimpleInstance, ActiveVersion(map[], DefaultVersionOf(SimpleClass)));
  }

  /** TestPacket's one parsing field is prepared and covers exactly the declared fields. */
  lemma SimpleCovered()
    ensures forall j :: 0 <= j < |SimpleClass.parsingFields| ==> IsPrepared(SimpleClass.parsingFields[j])
    ensures forall f :: f in Flatten(SimpleClass.parsingFields) ==> f in SimpleClass.fields
  {
    SimpleGroupPrepared();
    var gs := SimpleClass.parsingFields;
    assert gs[1..] == [] && Flatten(gs) == Members(SimpleGroup) + Flatten([]);
    assert Members(SimpleGroup) == [TestA, TestB, TestD, TestC];
  }

  /** Nothing in TestPacket is gated or names the version, so every field is active under any version. */
  lemma SimpleUngated(version: Value, data: map<string, Value>)
    ensures VersionConsistent(SimpleClass.parsingFields, VersionField(SimpleClass.fields), version, version, data)
    ensures ActiveNames(SimpleClass.parsingFields, version) == SimpleInstance.Keys
  {
    SimpleNames();
    var gs := SimpleClass.parsingFields;
    assert gs[1..] == [];
    assert VersionField(SimpleFields) == None;
    assert !Skipped(SimpleGroup, version);
    assert ActiveNames(gs, version) == SimpleInstance.Keys + ActiveNames([], version);
  }

  /** from_data on the twelve bytes gives back TestPacket(testa=0, testb=256, testc=0, testd=50332160). */
  lemma SimpleRead()
    ensures AllWellFormed(SimpleClass.parsingFields)
    ensures FromDataSpec(SimpleClass, SimpleBytes, 0, None).Success?
    ensures FromDataSpec(SimpleClass, SimpleBytes, 0, None).value.0 == SimpleInstance
  {
    SimpleWrite();
    SimpleCovered();
    SimpleFits();
    SimpleUngated(ActiveVersion(map[], DefaultVersionOf(SimpleClass)), DataOf(SimpleFields, SimpleInstance));
    SimpleNames();
    PacketRoundTrip(SimpleClass, SimpleInstance, None, None);
  }

  // ---------------------------------------------------------------- BooleanField

  /** A lone struct field prepares to its own one-code layout. */
  lemma PrepareLone(f: Field, ch: char, code: Code)
    requires f.kind.StructKind? && f.kind.structType == [ch] && f.kind.fieldCount == 1 && CodeOf(ch) == Some(code)
    ensures WellFormed(StartGroup(f))
    ensures PrepareGroupSpec(StartGroup(f)) == Success(ParsingField(f, [], [code], Width(code), 1))
  {
    ParseOne(ch, code);
    var g := StartGroup(f);
    assert Members(g) == [f] && [f][1..] == [];
    assert MemberCodes([]) == [] && TotalCount([]) == 0;
    assert MemberCodes([f]) == [code] + [];
    assert [code] + [] == [code] && [code][1..] == [] && Size([]) == 0;
    PrepareGroupLayout(g);
  }

  /** A BooleanField on its own, prepared with the given struct code. */
  function LoneBoolean(name: string, ordering: int, kind: Kind, code: Code): ParsingField {
    ParsingField(Field(name, ordering, kind, 0, false, VNone), [], [code], 1, 1)
  }

  /**
   * BooleanField as written declares struct type 'c': from_python hands struct an int, which
   * 'c' refuses, so writing fails for every value; and reading gives a one-byte str, which
   * is truthy even for a zero byte.
   */
  lemma BooleanAsWrittenFails(name: string, ordering: int, data: map<string, Value>, x: byte)
    ensures IsPrepared(LoneBoolean(name, ordering, BooleanKindAsWritten, Char))
    ensures WriteBytesSpec(LoneBoolean(name, ordering, BooleanKindAsWritten, Char), data) == Failure(StructError)
    ensures ToPython(Boolean, UnpackOne(Char, [x])) == VBool(true)
  {
    var f := Field(name, ordering, BooleanKindAsWritten, 0, false, VNone);
    assert "c" == ['c'];
    PrepareLone(f, 'c', Char);
    var g := LoneBoolean(name, ordering, BooleanKindAsWritten, Char);
    assert Members(g) == [f] && [f][1..] == [];
    var item := FromPython(Boolean, Lookup(data, name));
    assert GatherFrom([f], data, []) == GatherFrom([], data, [] + [item]);
    assert [] + [item] == [item];
  }

  /** BooleanField with struct type 'B' writes a bool as one byte, 1 or 0. */
  lemma BooleanWrite(name: string, ordering: int, b: bool)
    ensures IsPrepared(LoneBoolean(name, ordering, BooleanKind, UByte))
    ensures WriteBytesSpec(LoneBoolean(name, ordering, BooleanKind, UByte), map[name := VBool(b)])
         == Success([if b then 1 else 0])
  {
    var f := Field(name, ordering, BooleanKind, 0, false, VNone);
    assert "B" == ['B'];
    PrepareLone(f, 'B', UByte);
    var g := LoneBoolean(name, ordering, BooleanKind, UByte);
    var data := map[name := VBool(b)];
    assert Members(g) == [f] && [f][1..] == [];
    var item := VInt(if b then 1 else 0);
    assert GatherFrom([f], data, []) == GatherFrom([], data, [] + [item]);
    assert [] + [item] == [item] && [UByte][1..] == [] && [item][1..] == [];
    assert Pow256(1) == 256;
    if b {
      assert LittleEndian(1, 1) == [1] + LittleEndian(0, 0) && [1] + [] == [1];
    } else {
      assert LittleEndian(0, 1) == [0] + LittleEndian(0, 0) && [0] + [] == [0];
    }
    assert PackOne(UByte, item) == Success([if b then 1 else 0]);
    assert PackAll([], []) == Success([]);
    assert PackAll([UByte], [item]) == Success([if b then 1 else 0] + []);
  }

  /**
   * BooleanField with struct type 'B': the byte it writes reads back as the same bool,
   * wherever the byte sits.
   */
  lemma BooleanRoundTrip(name: string, ordering: int, b: bool, before: seq<byte>, after: seq<byte>)
    ensures IsPrepared(LoneBoolean(name, ordering, BooleanKind, UByte))
    ensures ReadBytesSpec(LoneBoolean(name, ordering, BooleanKind, UByte),
                          before + [if b then 1 else 0] + after, |before|)
         == Success((map[name := VBool(b)], 1))
  {
    BooleanWrite(name, ordering, b);
    var f := Field(name, ordering, BooleanKind, 0, false, VNone);
    var g := LoneBoolean(name, ordering, BooleanKind, UByte);
    var data := map[name := VBool(b)];
    assert Members(g) == [f];
    ParseOne('B', UByte);
    assert "B" == ['B'];
    assert Pow256(1) == 256;
    assert FieldFits(f, VBool(b));
    GroupRoundTrip(g, data, before, after);
    assert NamesOf(Members(g)) == {name};
    assert Project(Members(g), data) == data;
    assert WriteBytesSpec(g, data).value == [if b then 1 else 0];
  }
}
