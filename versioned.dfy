/**
 * The version-gated packet of test/test_versioned.py: a version identifier read first, then
 * fields that only travel from a given protocol version on. Also the inputs that separate the
 * merge rule of fields.py as written from the version-respecting one, and the to_data call of
 * base.py that fails on a gated field when no extra dictionary is passed.
 */
module Versioned {
  import opened Common
  import opened PyStruct
  import opened Fields
  import opened Schema
  import opened Codec
  import Framing
  import S = Scenarios

  const Version := Field("version", 1, UByteKind, 0, true, VNone)
  const TestA := Field("testa", 2, UIntKind, 1, false, VNone)
  const TestB := Field("testb", 3, UShortKind, 2, false, VNone)
  const TestC := Field("testc", 4, SShortKind, 3, false, VNone)
  const TestD := Field("testd", 5, StringKind, 1, false, VNone)

  /** Declared in ordering order already. */
  const VersionedFields := [Version, TestA, TestB, TestC, TestD]

  // The parsing fields once prepared: one per field, since no two neighbours share a version.
  const GroupVersion := ParsingField(Version, [], [UByte], 1, 1)
  const GroupA := ParsingField(TestA, [], [UInt], 4, 1)
  const GroupB := ParsingField(TestB, [], [UShort], 2, 1)
  const GroupC := ParsingField(TestC, [], [SShort], 2, 1)
  const GroupD := StartGroup(TestD)
  const VersionedGroups := [GroupVersion, GroupA, GroupB, GroupC, GroupD]

  const VersionedClass := PacketClass("TestPacket", -1, InitialOptions[Virtual := 1], Some(map[Virtual := 1]),
                                      VersionedFields, VersionedFields, VersionedGroups, true)

  /** 'test-string-01' as bytes. */
  const TestString: seq<byte> := [116, 101, 115, 116, 45, 115, 116, 114, 105, 110, 103, 45, 48, 49]

  /** TestPacket(**test_data) with packet.version = i. */
  function VersionedInstance(i: int): Instance {
    map["version" := VInt(i), "testa" := VInt(5), "testb" := VInt(0), "testc" := VInt(-0x8000),
        "testd" := VStr(TestString)]
  }

  /** The gated fields a version-i packet carries: versioned_fields[i] of the test for i in 1..4. */
  function CarriedAt(i: int): set<string> {
    if i < 1 then {}
    else if i == 1 then {"testa", "testd"}
    else if i == 2 then {"testa", "testb", "testd"}
    else {"testa", "testb", "testc", "testd"}
  }

  // ---------------------------------------------------------------- preparing the class

  /** One step of the merge loop where the last leader refuses the next field. */
  lemma MergeApart(r: MergeRule, acc: seq<ParsingField>, f: Field, rest: seq<Field>)
    requires acc != [] && !CanMerge(r, Last(acc).leader, f)
    ensures MergeFrom(r, [f] + rest, acc) == MergeFrom(r, rest, acc + [StartGroup(f)])
  {
    assert ([f] + rest)[0] == f && ([f] + rest)[1..] == rest;
  }

  /** Under the version-respecting rule nothing merges: every field has its own required version. */
  lemma VersionedMerge()
    ensures MergeRuns(SameVersionStruct, VersionedFields) == LoneGroups
  {
    var r := SameVersionStruct;
    var fs := VersionedFields;
    assert fs[0] == Version && fs[1..] == [TestA, TestB, TestC, TestD];
    var g1 := [StartGroup(Version)];
    assert MergeFrom(r, fs, []) == MergeFrom(r, [TestA, TestB, TestC, TestD], [] + g1);
    assert [] + g1 == g1;
    MergeApart(r, g1, TestA, [TestB, TestC, TestD]);
    assert [TestA] + [TestB, TestC, TestD] == [TestA, TestB, TestC, TestD];
    var g2 := g1 + [StartGroup(TestA)];
    MergeApart(r, g2, TestB, [TestC, TestD]);
    assert [TestB] + [TestC, TestD] == [TestB, TestC, TestD];
    var g3 := g2 + [StartGroup(TestB)];
    MergeApart(r, g3, TestC, [TestD]);
    assert [TestC] + [TestD] == [TestC, TestD];
    var g4 := g3 + [StartGroup(TestC)];
    MergeApart(r, g4, TestD, []);
    assert [TestD] + [] == [TestD];
    var g5 := g4 + [StartGroup(TestD)];
    assert MergeFrom(r, [], g5) == g5;
  }

  /** prepare_all over parsing fields each of which prepares on its own: the list of their results. */
  lemma {:induction false} PrepareAllEach(gs: seq<ParsingField>, ps: seq<ParsingField>)
    requires |gs| == |ps|
    requires forall j :: 0 <= j < |gs| ==> WellFormed(gs[j]) && PrepareGroupSpec(gs[j]) == Success(ps[j])
    ensures PrepareAllSpec(gs) == Success(ps)
  {
    if gs != [] {
      PrepareAllEach(gs[1..], ps[1..]);
      assert ps == [ps[0]] + ps[1..];
    }
  }

  const LoneGroups := [StartGroup(Version), StartGroup(TestA), StartGroup(TestB), StartGroup(TestC), StartGroup(TestD)]

  /** Each lone group prepares to its layout; the string group is left as it is. */
  lemma LonesPrepared()
    ensures WellFormed(StartGroup(Version)) && PrepareGroupSpec(StartGroup(Version)) == Success(GroupVersion)
    ensures WellFormed(StartGroup(TestA)) && PrepareGroupSpec(StartGroup(TestA)) == Success(GroupA)
    ensures WellFormed(StartGroup(TestB)) && PrepareGroupSpec(StartGroup(TestB)) == Success(GroupB)
    ensures WellFormed(StartGroup(TestC)) && PrepareGroupSpec(StartGroup(TestC)) == Success(GroupC)
    ensures WellFormed(StartGroup(TestD)) && PrepareGroupSpec(StartGroup(TestD)) == Success(GroupD)
  {
    CodeRanges();
    assert "B" == ['B'] && "I" == ['I'] && "H" == ['H'] && "h" == ['h'];
    LonePrepared(Version, 'B', UByte, GroupVersion);
    LonePrepared(TestA, 'I', UInt, GroupA);
    LonePrepared(TestB, 'H', UShort, GroupB);
    LonePrepared(TestC, 'h', SShort, GroupC);
  }

  lemma LonePrepared(f: Field, ch: char, code: Code, g: ParsingField)
    requires f.kind.StructKind? && f.kind.structType == [ch] && f.kind.fieldCount == 1 && CodeOf(ch) == Some(code)
    requires g == ParsingField(f, [], [code], Width(code), 1)
    ensures WellFormed(StartGroup(f)) && PrepareGroupSpec(StartGroup(f)) == Success(g)
  {
    S.PrepareLone(f, ch, code);
  }

  /** Preparing the five lone groups gives the five layouts B, I, H, h and the string. */
  lemma VersionedPrepareAll()
    ensures forall j :: 0 <= j < |LoneGroups| ==> WellFormed(LoneGroups[j])
    ensures PrepareAllSpec(LoneGroups) == Success(VersionedGroups)
  {
    LonesPrepared();
    PrepareFive(StartGroup(Version), StartGroup(TestA), StartGroup(TestB), StartGroup(TestC), StartGroup(TestD),
                GroupVersion, GroupA, GroupB, GroupC, GroupD);
  }

  lemma PrepareFive(g0: ParsingField, g1: ParsingField, g2: ParsingField, g3: ParsingField, g4: ParsingField,
                    p0: ParsingField, p1: ParsingField, p2: ParsingField, p3: ParsingField, p4: ParsingField)
    requires WellFormed(g0) && PrepareGroupSpec(g0) == Success(p0)
    requires WellFormed(g1) && PrepareGroupSpec(g1) == Success(p1)
    requires WellFormed(g2) && PrepareGroupSpec(g2) == Success(p2)
    requires WellFormed(g3) && PrepareGroupSpec(g3) == Success(p3)
    requires WellFormed(g4) && PrepareGroupSpec(g4) == Success(p4)
    ensures forall j :: 0 <= j < 5 ==> WellFormed([g0, g1, g2, g3, g4][j])
    ensures PrepareAllSpec([g0, g1, g2, g3, g4]) == Success([p0, p1, p2, p3, p4])
  {
    PrepareAllEach([g0, g1, g2, g3, g4], [p0, p1, p2, p3, p4]);
  }

  /** TestPacket as the class statement prepares it: five parsing fields in `ordering` order. */
  lemma VersionedPrepared()
    ensures PreparedFrom(VersionedClass)
  {
    assert SortedByOrdering(VersionedFields);
    SortedFixed(VersionedFields);
    VersionedMerge();
    VersionedPrepareAll();
    S.PreparedFromSteps(VersionedClass, LoneGroups);
  }

  /** Every parsing field of TestPacket is prepared, so preparing it again changes nothing. */
  lemma VersionedGroupsPrepared()
    ensures AllWellFormed(VersionedGroups)
    ensures forall j :: 0 <= j < |VersionedGroups| ==> IsPrepared(VersionedGroups[j])
  {
    VersionedPrepareAll();
    PrepareAllProperties(LoneGroups);
  }

  // ---------------------------------------------------------------- which fields a version carries

  lemma ActiveCons(g: ParsingField, rest: seq<ParsingField>, version: Value)
    ensures ActiveNames([g] + rest, version)
         == (if Skipped(g, version) then {} else NamesOf(Members(g))) + ActiveNames(rest, version)
  {
    assert ([g] + rest)[0] == g && ([g] + rest)[1..] == rest;
  }

  lemma LoneNames(g: ParsingField)
    requires g.neighbours == []
    ensures NamesOf(Members(g)) == {g.leader.name}
  {
    assert Members(g) == [g.leader];
  }

  /**
   * A packet at version i carries the version field, testa and testd from version 1, testb
   * from version 2 and testc from version 3: versioned_fields and versioned_missing of the test.
   */
  lemma VersionedActive(i: int)
    ensures ActiveNames(VersionedGroups, VInt(i)) == {"version"} + CarriedAt(i)
  {
    var v := VInt(i);
    LoneNames(GroupVersion);
    LoneNames(GroupA);
    LoneNames(GroupB);
    LoneNames(GroupC);
    LoneNames(GroupD);
    var r4: seq<ParsingField> := [GroupD];
    var r3 := [GroupC] + r4;
    var r2 := [GroupB] + r3;
    var r1 := [GroupA] + r2;
    ActiveCons(GroupD, [], v);
    assert [GroupD] + [] == r4 && ActiveNames([], v) == {};
    ActiveCons(GroupC, r4, v);
    ActiveCons(GroupB, r3, v);
    ActiveCons(GroupA, r2, v);
    ActiveCons(GroupVersion, r1, v);
    assert [GroupVersion] + r1 == VersionedGroups;
  }

  // ---------------------------------------------------------------- writing then reading at version i

  /** The one version identifier is the field named "version". */
  lemma VersionedIdentifier()
    ensures VersionField(VersionedFields) == Some("version")
  {
    var fs := VersionedFields;
    assert fs[0].isVersionIdentifier;
    assert forall k :: 0 < k < |fs| ==> !fs[k].isVersionIdentifier;
  }

  lemma VersionedFlatten()
    ensures Flatten(VersionedGroups) == VersionedFields
  {
    var gs := VersionedGroups;
    assert gs[1..] == [GroupA, GroupB, GroupC, GroupD];
    assert gs[1..][1..] == [GroupB, GroupC, GroupD];
    assert gs[1..][1..][1..] == [GroupC, GroupD];
    assert gs[1..][1..][1..][1..] == [GroupD];
    assert [GroupD][1..] == [];
    assert Flatten([GroupD]) == [TestD] + [];
    assert Flatten([GroupC, GroupD]) == [TestC] + [TestD];
    assert Flatten([GroupB, GroupC, GroupD]) == [TestB] + [TestC, TestD];
    assert Flatten([GroupA, GroupB, GroupC, GroupD]) == [TestA] + [TestB, TestC, TestD];
    assert Flatten(gs) == [Version] + [TestA, TestB, TestC, TestD];
  }

  /** test_data fits the field types: testc is the smallest Int16, testd has no NUL byte. */
  lemma VersionedFits(i: int)
    requires 0 <= i < 256
    ensures InstanceFits(VersionedFields, VersionedInstance(i))
  {
    StructSamplesFit(i);
    StringSampleFits();
    InstanceLookups(i);
    FiveFit(Version, TestA, TestB, TestC, TestD, VersionedInstance(i));
  }

  lemma InstanceLookups(i: int)
    ensures var inst := VersionedInstance(i);
            "version" in inst && inst["version"] == VInt(i) && "testa" in inst && inst["testa"] == VInt(5)
            && "testb" in inst && inst["testb"] == VInt(0) && "testc" in inst && inst["testc"] == VInt(-0x8000)
            && "testd" in inst && inst["testd"] == VStr(TestString)
  {
  }

  lemma FiveFit(f0: Field, f1: Field, f2: Field, f3: Field, f4: Field, inst: Instance)
    requires f0.name in inst && FieldFits(f0, inst[f0.name]) && f1.name in inst && FieldFits(f1, inst[f1.name])
    requires f2.name in inst && FieldFits(f2, inst[f2.name]) && f3.name in inst && FieldFits(f3, inst[f3.name])
    requires f4.name in inst && FieldFits(f4, inst[f4.name])
    ensures InstanceFits([f0, f1, f2, f3, f4], inst)
  {
  }

  lemma StructSamplesFit(i: int)
    requires 0 <= i < 256
    ensures FieldFits(Version, VInt(i)) && FieldFits(TestA, VInt(5))
    ensures FieldFits(TestB, VInt(0)) && FieldFits(TestC, VInt(-0x8000))
  {
    CodeRanges();
    assert "B" == ['B'] && "I" == ['I'] && "H" == ['H'] && "h" == ['h'];
    OneCodeFits(Version, 'B', UByte, VInt(i));
    OneCodeFits(TestA, 'I', UInt, VInt(5));
    OneCodeFits(TestB, 'H', UShort, VInt(0));
    OneCodeFits(TestC, 'h', SShort, VInt(-0x8000));
  }

  lemma CodeRanges()
    ensures CodeOf('B') == Some(UByte) && Lo(UByte) == 0 && Hi(UByte) == 255
    ensures CodeOf('I') == Some(UInt) && Lo(UInt) == 0 && Hi(UInt) == 4294967295
    ensures CodeOf('H') == Some(UShort) && Lo(UShort) == 0 && Hi(UShort) == 65535
    ensures CodeOf('h') == Some(SShort) && Lo(SShort) == -32768 && Hi(SShort) == 32767
  {
    S.PowersOfByte();
    assert Pow256(1) == 256;
  }

  /** A plain one-code field takes every integer its code's range holds. */
  lemma OneCodeFits(f: Field, ch: char, code: Code, v: Value)
    requires f.kind == StructKind([ch], 1, Plain) && CodeOf(ch) == Some(code) && code != Char
    requires v.VInt? && Lo(code) <= v.i <= Hi(code)
    ensures FieldFits(f, v)
  {
    Framing.ParseOne(ch, code);
  }

  lemma StringSampleFits()
    ensures FieldFits(TestD, VStr(TestString))
  {
  }

  /** The version read first gates every later parsing field exactly as the writer's version did. */
  lemma VersionedConsistent(i: int)
    ensures VersionConsistent(VersionedGroups, Some("version"), VInt(-1), VInt(i),
                              DataOf(VersionedFields, VersionedInstance(i)))
  {
    var data := DataOf(VersionedFields, VersionedInstance(i));
    assert VersionedFields[0].name == "version";
    assert Lookup(data, "version") == VInt(i);
    var gs := VersionedGroups;
    LoneNames(GroupVersion);
    assert !Skipped(gs[0], VInt(-1)) && !Skipped(gs[0], VInt(i));
    assert NamesVersion(Some("version"), NamesOf(Members(gs[0])));
    VersionConsistentSame(gs[1..], Some("version"), VInt(i), data);
  }

  lemma VersionedNames(i: int)
    ensures NamesOf(VersionedFields) == VersionedInstance(i).Keys
  {
    var fs := VersionedFields;
    assert fs[0].name == "version" && fs[1].name == "testa" && fs[2].name == "testb";
    assert fs[3].name == "testc" && fs[4].name == "testd";
  }

  /**
   * write(extra={'version': i}) then from_data with no extra dictionary: the version and the
   * fields version i carries come back with test_data's values; the others read as None.
   */
  lemma VersionedRoundTrip(i: int)
    requires 0 <= i < 256
    ensures AllWellFormed(VersionedClass.parsingFields)
    ensures ToDataSpec(VersionedClass, VersionedInstance(i), Some(map["version" := VInt(i)])).Success?
    ensures var bytes := ToDataSpec(VersionedClass, VersionedInstance(i), Some(map["version" := VInt(i)])).value;
            var decoded := FromDataSpec(VersionedClass, bytes, 0, None);
            decoded.Success?
            && (forall n :: n in VersionedInstance(i) ==>
                  n in decoded.value.0
                  && decoded.value.0[n] == if n == "version" || n in CarriedAt(i) then VersionedInstance(i)[n] else VNone)
  {
    VersionedGroupsPrepared();
    VersionedFlatten();
    VersionedFits(i);
    VersionedIdentifier();
    VersionedConsistent(i);
    VersionedActive(i);
    VersionedNames(i);
    PacketRoundTrip(VersionedClass, VersionedInstance(i), Some(map["version" := VInt(i)]), None);
    assert ActiveVersion(map["version" := VInt(i)], DefaultVersionOf(VersionedClass)) == VInt(i);
    var bytes := ToDataSpec(VersionedClass, VersionedInstance(i), Some(map["version" := VInt(i)])).value;
    var decoded := FromDataSpec(VersionedClass, bytes, 0, None).value.0;
    DecodedValues(decoded, NamesOf(VersionedFields), ActiveNames(VersionedGroups, VInt(i)), VersionedInstance(i), i);
  }

  /** The decoded dictionary of the round trip, read name by name. */
  lemma DecodedValues(decoded: map<string, Value>, names: set<string>, active: set<string>, inst: Instance, i: int)
    requires names == inst.Keys && active == {"version"} + CarriedAt(i)
    requires decoded == map n | n in names :: if n in active then inst[n] else VNone
    ensures forall n :: n in inst ==>
              n in decoded && decoded[n] == if n == "version" || n in CarriedAt(i) then inst[n] else VNone
  {
  }

  // ---------------------------------------------------------------- the bytes of each version

  /** packet_data[i] of the test: the version byte, testa, testb from version 2, testc from 3, then testd. */
  function VersionedBytes(i: byte): seq<byte> {
    [i, 5, 0, 0, 0] + (if i >= 2 then [0, 0] else []) + (if i >= 3 then [0, 0x80] else []) + TestString + [0]
  }

  /** write_bytes of a lone, plain, one-item struct field: its one packed item. */
  lemma LoneWrite(g: ParsingField, data: map<string, Value>, code: Code, bytes: seq<byte>)
    requires g.neighbours == [] && g.layout == [code]
    requires g.leader.kind.StructKind? && g.leader.kind.fieldCount == 1 && g.leader.kind.conversion == Plain
    requires PackOne(code, Lookup(data, g.leader.name)) == Success(bytes)
    ensures WellFormed(g)
    ensures WriteBytesSpec(g, data) == Success(bytes)
  {
    var f := g.leader;
    var v := Lookup(data, f.name);
    assert Members(g) == [f] && [f][1..] == [];
    assert GatherFrom([f], data, []) == GatherFrom([], data, [] + [v]);
    assert [] + [v] == [v] && [code][1..] == [] && [v][1..] == [];
    assert PackAll([], []) == Success([]);
    assert PackAll([code], [v]) == Success(bytes + []);
    assert bytes + [] == bytes;
  }

  /** The dictionary to_data hands to write_bytes is the instance itself. */
  lemma VersionedData(i: int)
    ensures DataOf(VersionedFields, VersionedInstance(i)) == VersionedInstance(i)
  {
    VersionedNames(i);
  }

  lemma SampleBytes()
    ensures LittleEndian(5, 4) == [5, 0, 0, 0]
    ensures LittleEndian(0, 2) == [0, 0]
    ensures LittleEndian(32768, 2) == [0, 0x80]
  {
    assert LittleEndian(0, 0) == [] && LittleEndian(0, 1) == [0] + [] && LittleEndian(0, 2) == [0] + [0];
    assert LittleEndian(0, 3) == [0] + [0, 0] && LittleEndian(5, 4) == [5] + [0, 0, 0];
    assert LittleEndian(128, 1) == [128] + [] && LittleEndian(32768, 2) == [0] + [128];
  }

  /** The bytes of testa, testb and testc for test_data: 5 as u32, 0 as u16, -0x8000 as i16. */
  lemma StructSegments(i: int)
    ensures WellFormed(GroupA) && WriteBytesSpec(GroupA, VersionedInstance(i)) == Success([5, 0, 0, 0])
    ensures WellFormed(GroupB) && WriteBytesSpec(GroupB, VersionedInstance(i)) == Success([0, 0])
    ensures WellFormed(GroupC) && WriteBytesSpec(GroupC, VersionedInstance(i)) == Success([0, 0x80])
  {
    S.PowersOfByte();
    SampleBytes();
    assert Lo(UInt) == 0 && Hi(UInt) == 4294967295 && Hi(UShort) == 65535;
    assert Lo(SShort) == -32768 && Hi(SShort) == 32767 && -0x8000 + Pow256(Width(SShort)) == 32768;
    assert PackOne(UInt, VInt(5)) == Success([5, 0, 0, 0]);
    assert PackOne(UShort, VInt(0)) == Success([0, 0]);
    assert PackOne(SShort, VInt(-0x8000)) == Success([0, 0x80]);
    LoneWrite(GroupA, VersionedInstance(i), UInt, [5, 0, 0, 0]);
    LoneWrite(GroupB, VersionedInstance(i), UShort, [0, 0]);
    LoneWrite(GroupC, VersionedInstance(i), SShort, [0, 0x80]);
  }

  lemma EncodeWritten(g: ParsingField, rest: seq<ParsingField>, data: map<string, Value>, version: Value,
                      segment: seq<byte>, tail: seq<byte>)
    requires WellFormed(g) && AllWellFormed(rest) && !Skipped(g, version)
    requires WriteBytesSpec(g, data) == Success(segment) && Encode(rest, data, Some(version)) == Success(tail)
    ensures AllWellFormed([g] + rest)
    ensures Encode([g] + rest, data, Some(version)) == Success(segment + tail)
  {
    assert ([g] + rest)[0] == g && ([g] + rest)[1..] == rest;
  }

  lemma EncodeSkipped(g: ParsingField, rest: seq<ParsingField>, data: map<string, Value>, version: Value,
                      tail: seq<byte>)
    requires WellFormed(g) && AllWellFormed(rest) && Skipped(g, version)
    requires Encode(rest, data, Some(version)) == Success(tail)
    ensures AllWellFormed([g] + rest)
    ensures Encode([g] + rest, data, Some(version)) == Success(tail)
  {
    assert ([g] + rest)[0] == g && ([g] + rest)[1..] == rest;
  }

  /** The gated part of a version-i packet: testb from version 2, testc from 3, then testd. */
  lemma GatedBytes(i: int)
    requires 1 <= i
    ensures AllWellFormed([GroupB, GroupC, GroupD])
    ensures Encode([GroupB, GroupC, GroupD], VersionedInstance(i), Some(VInt(i)))
         == Success((if i >= 2 then [0, 0] else []) + ((if i >= 3 then [0, 0x80] else []) + (TestString + [0])))
  {
    StructSegments(i);
    var data := VersionedInstance(i);
    var v := VInt(i);
    assert Encode([], data, Some(v)) == Success([]);
    EncodeWritten(GroupD, [], data, v, TestString + [0], []);
    assert [GroupD] + [] == [GroupD] && TestString + [0] + [] == TestString + [0];
    var c: seq<byte> := if i >= 3 then [0, 0x80] else [];
    if i >= 3 {
      EncodeWritten(GroupC, [GroupD], data, v, [0, 0x80], TestString + [0]);
    } else {
      EncodeSkipped(GroupC, [GroupD], data, v, TestString + [0]);
      assert [] + (TestString + [0]) == TestString + [0];
    }
    assert [GroupC] + [GroupD] == [GroupC, GroupD];
    if i >= 2 {
      EncodeWritten(GroupB, [GroupC, GroupD], data, v, [0, 0], c + (TestString + [0]));
    } else {
      EncodeSkipped(GroupB, [GroupC, GroupD], data, v, c + (TestString + [0]));
      assert [] + (c + (TestString + [0])) == c + (TestString + [0]);
    }
    assert [GroupB] + [GroupC, GroupD] == [GroupB, GroupC, GroupD];
  }

  /**
   * write(extra={'version': i}) for i in 1..4: exactly packet_data[i] of the test, the gated
   * fields left out rather than zero-filled.
   */
  lemma VersionedWrite(i: byte)
    requires 1 <= i <= 4
    ensures AllWellFormed(VersionedClass.parsingFields)
    ensures ToDataSpec(VersionedClass, VersionedInstance(i), Some(map["version" := VInt(i)])) == Success(VersionedBytes(i))
  {
    VersionedData(i);
    assert ActiveVersion(map["version" := VInt(i)], DefaultVersionOf(VersionedClass)) == VInt(i);
    VersionedEncode(i);
  }

  /** The groups of the sample class, encoded at version `i`, give the sample's bytes. */
  lemma VersionedEncode(i: byte)
    requires 1 <= i <= 4
    ensures AllWellFormed(VersionedGroups)
    ensures Encode(VersionedGroups, VersionedInstance(i), Some(VInt(i))) == Success(VersionedBytes(i))
  {
    VersionedData(i);
    VersionByte(i);
    StructSegments(i);
    var data := VersionedInstance(i);
    var v := VInt(i);
    var rest := (if i >= 2 then [0, 0] else []) + ((if i >= 3 then [0, 0x80] else []) + (TestString + [0]));
    GatedBytes(i);
    GroupsCons();
    EncodeWritten(GroupA, [GroupB, GroupC, GroupD], data, v, [5, 0, 0, 0], rest);
    EncodeWritten(GroupVersion, [GroupA, GroupB, GroupC, GroupD], data, v, [i], [5, 0, 0, 0] + rest);
    VersionedLayout(i, if i >= 2 then [0, 0] else [], if i >= 3 then [0, 0x80] else []);
  }

  lemma GroupsCons()
    ensures [GroupA] + [GroupB, GroupC, GroupD] == [GroupA, GroupB, GroupC, GroupD]
    ensures [GroupVersion] + [GroupA, GroupB, GroupC, GroupD] == VersionedGroups
  {
  }

  lemma VersionedLayout(i: byte, b: seq<byte>, c: seq<byte>)
    ensures [i] + ([5, 0, 0, 0] + (b + (c + (TestString + [0])))) == [i, 5, 0, 0, 0] + b + c + TestString + [0]
  {
  }

  // ---------------------------------------------------------------- the merge rule as written

  /** The merge as written: every struct neighbour joins the version field's group, whatever its version. */
  lemma MergeAsWritten()
    ensures MergeRuns(AnyStruct, VersionedFields)
         == [ParsingField(Version, [TestA, TestB, TestC], [], 0, 0), StartGroup(TestD)]
  {
    assert CanMerge(AnyStruct, Version, TestA) && CanMerge(AnyStruct, Version, TestB);
    assert CanMerge(AnyStruct, Version, TestC) && !CanMerge(AnyStruct, Version, TestD);
    MergeThreeThenApart(AnyStruct, Version, TestA, TestB, TestC, TestD);
  }

  /** Three fields that each join the first field's group, then one that starts its own. */
  lemma MergeThreeThenApart(r: MergeRule, a: Field, b: Field, c: Field, d: Field, e: Field)
    requires CanMerge(r, a, b) && CanMerge(r, a, c) && CanMerge(r, a, d) && !CanMerge(r, a, e)
    ensures MergeRuns(r, [a, b, c, d, e]) == [ParsingField(a, [b, c, d], [], 0, 0), StartGroup(e)]
  {
    var g1 := StartGroup(a);
    assert [a, b, c, d, e] == [a] + ([b, c, d] + [e]);
    MergeStart(r, a, [b, c, d] + [e]);
    assert [] + [g1] == [g1];
    MergeJoinAll(r, [], g1, [b, c, d], [e]);
    var g4 := ParsingField(a, [b, c, d], [], 0, 0);
    assert g1.(neighbours := g1.neighbours + [b, c, d]) == g4 && [] + [g4] == [g4];
    MergeLast(r, [g4], e);
    assert [g4] + [StartGroup(e)] == [g4, StartGroup(e)];
  }

  lemma MergeStart(r: MergeRule, a: Field, rest: seq<Field>)
    ensures MergeFrom(r, [a] + rest, []) == MergeFrom(r, rest, [StartGroup(a)])
  {
    assert ([a] + rest)[0] == a && ([a] + rest)[1..] == rest;
    assert [] + [StartGroup(a)] == [StartGroup(a)];
  }

  lemma MergeLast(r: MergeRule, acc: seq<ParsingField>, e: Field)
    requires acc != [] && !CanMerge(r, Last(acc).leader, e)
    ensures MergeFrom(r, [e], acc) == acc + [StartGroup(e)]
  {
    assert [e][1..] == [];
  }

  /** Fields that each join the last group's leader all land in that group, in order. */
  lemma {:induction false} MergeJoinAll(r: MergeRule, init: seq<ParsingField>, g: ParsingField, fs: seq<Field>, rest: seq<Field>)
    requires forall k :: 0 <= k < |fs| ==> CanMerge(r, g.leader, fs[k])
    ensures MergeFrom(r, fs + rest, init + [g]) == MergeFrom(r, rest, init + [g.(neighbours := g.neighbours + fs)])
    decreases |fs|
  {
    if fs == [] {
      assert fs + rest == rest && g.neighbours + fs == g.neighbours;
    } else {
      assert fs + rest == [fs[0]] + (fs[1..] + rest);
      S.MergeInto(r, init, g, fs[0], fs[1..] + rest);
      var g' := g.(neighbours := g.neighbours + [fs[0]]);
      MergeJoinAll(r, init, g', fs[1..], rest);
      assert g'.neighbours + fs[1..] == g.neighbours + fs;
    }
  }

  /**
   * With the merge as written, the group led by the ungated version field carries testb and
   * testc too, so a version-1 packet holds both, against versioned_missing[1] of the test.
   */
  lemma MergeAsWrittenIgnoresVersion()
    ensures ActiveNames(MergeRuns(AnyStruct, VersionedFields), VInt(1)) == VersionedInstance(1).Keys
    ensures ActiveNames(MergeRuns(AnyStruct, VersionedFields), VInt(1)) != {"version"} + CarriedAt(1)
  {
    MergeAsWritten();
    var g := ParsingField(Version, [TestA, TestB, TestC], [], 0, 0);
    var ms := Members(g);
    assert ms == [Version, TestA, TestB, TestC];
    assert ms[0].name == "version" && ms[1].name == "testa" && ms[2].name == "testb" && ms[3].name == "testc";
    assert NamesOf(ms) == {"version", "testa", "testb", "testc"};
    LoneNames(StartGroup(TestD));
    ActiveCons(StartGroup(TestD), [], VInt(1));
    assert [StartGroup(TestD)] + [] == [StartGroup(TestD)] && ActiveNames([], VInt(1)) == {};
    ActiveCons(g, [StartGroup(TestD)], VInt(1));
    assert [g] + [StartGroup(TestD)] == [g, StartGroup(TestD)];
    assert "testb" !in {"version"} + CarriedAt(1);
  }

  // ---------------------------------------------------------------- write() without an extra dictionary

  lemma VersionByte(i: int)
    requires 0 <= i < 256
    ensures WellFormed(GroupVersion)
    ensures WriteBytesSpec(GroupVersion, DataOf(VersionedFields, VersionedInstance(i))) == Success([i])
  {
    var data := DataOf(VersionedFields, VersionedInstance(i));
    assert VersionedFields[0].name == "version";
    assert Lookup(data, "version") == VInt(i);
    assert Members(GroupVersion) == [Version] && [Version][1..] == [];
    assert GatherFrom([Version], data, []) == GatherFrom([], data, [] + [VInt(i)]);
    assert [] + [VInt(i)] == [VInt(i)];
    assert LittleEndian(i, 1) == [i % 256] + LittleEndian(i / 256, 0);
    assert [i % 256] + [] == [i];
    assert Pow256(1) == 256;
    assert PackOne(UByte, VInt(i)) == Success([i]);
    assert [UByte][1..] == [] && [VInt(i)][1..] == [];
    assert PackAll([UByte], [VInt(i)]) == Success([i] + []);
  }

  lemma GatedTail()
    ensures AllWellFormed(VersionedGroups[1..])
    ensures VersionedGroups[1..][0] == GroupA && VersionedGroups[1..][0].leader.requiredVersion == 1
    ensures forall j :: 0 <= j < |VersionedGroups[1..]| ==> Skipped(VersionedGroups[1..][j], VInt(-1))
  {
    VersionedGroupsPrepared();
    var gs := VersionedGroups;
    assert gs[1..] == [GroupA, GroupB, GroupC, GroupD];
  }

  /** Every gated group is skipped under default_version -1. */
  lemma {:induction false} AllSkipped(gs: seq<ParsingField>, data: map<string, Value>, version: Value)
    requires AllWellFormed(gs)
    requires forall j :: 0 <= j < |gs| ==> Skipped(gs[j], version)
    ensures Encode(gs, data, Some(version)) == Success([])
  {
    if gs != [] {
      assert forall j :: 0 <= j < |gs[1..]| ==> gs[1..][j] == gs[j + 1];
      AllSkipped(gs[1..], data, version);
    }
  }

  /**
   * Packet.write() calls to_data with no extra dictionary: the version byte is written, then
   * the first gated group asks that missing dictionary for its version and fails.
   */
  lemma WriteAsWrittenFails(i: int)
    requires 0 <= i < 256
    ensures AllWellFormed(VersionedClass.parsingFields)
    ensures ToDataAsWritten(VersionedClass, VersionedInstance(i), None) == Failure(AttributeError)
  {
    VersionedGroupsPrepared();
    VersionByte(i);
    GatedTail();
    var data := DataOf(VersionedFields, VersionedInstance(i));
    var gs := VersionedGroups;
    assert Encode(gs[1..], data, None) == Failure(AttributeError);
    assert gs[0] == GroupVersion && GroupVersion.leader.requiredVersion == 0;
    assert Encode(gs, data, None) == Failure(AttributeError);
  }

  /**
   * With a missing extra dictionary read as an empty one, default_version (-1) applies: the
   * packet is just its version byte, every gated group being left out.
   */
  lemma WriteDefaultVersion(i: int)
    requires 0 <= i < 256
    ensures AllWellFormed(VersionedClass.parsingFields)
    ensures ToDataSpec(VersionedClass, VersionedInstance(i), None) == Success([i])
  {
    VersionedGroupsPrepared();
    VersionByte(i);
    GatedTail();
    var data := DataOf(VersionedFields, VersionedInstance(i));
    AllSkipped(VersionedGroups[1..], data, VInt(-1));
    assert [i] + [] == [i];
  }
}
