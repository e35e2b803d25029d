/**
 * PacketManager.from_data / to_data (libopenttd/packets/base.py): walking a class's
 * parsing fields with a running byte index, skipping version-gated fields, and tracking
 * the active version once the version-identifier field has been read.
 */
module Codec {
  import opened Common
  import opened PyStruct
  import opened Fields
  import opened Schema

  /** A packet instance: its attribute values by field name. */
  type Instance = map<string, Value>

  /** Python 2 `v < n` for an int n: None sorts below every int; str and tuple above. */
  predicate PyLess(v: Value, n: int) {
    match v
    case VNone => true
    case VInt(i) => i < n
    case VBool(b) => (if b then 1 else 0) < n
    case VStr(_) => false
    case VTuple(_) => false
  }

  /** `extra.get('version', default_version)`. */
  function ActiveVersion(extra: map<string, Value>, defaultVersion: int): Value {
    if "version" in extra then extra["version"] else VInt(defaultVersion)
  }

  /** A parsing field is skipped when its (truthy) required version is above the active version. */
  predicate Skipped(g: ParsingField, version: Value) {
    g.leader.requiredVersion != 0 && PyLess(version, g.leader.requiredVersion)
  }

  predicate AllWellFormed(gs: seq<ParsingField>) {
    forall j :: 0 <= j < |gs| ==> WellFormed(gs[j])
  }

  /** The dictionary to_data passes to write_bytes: every declared name, missing attributes as None. */
  function DataOf(fields: seq<Field>, inst: Instance): (data: map<string, Value>)
    ensures data.Keys == NamesOf(fields)
  {
    map n | n in NamesOf(fields) :: Lookup(inst, n)
  }

  // ---------------------------------------------------------------- to_data

  /**
   * The bytes of the parsing fields from gs on. `version` is None when there is no extra
   * dictionary at all, in which case a gated field raises AttributeError.
   */
  function Encode(gs: seq<ParsingField>, data: map<string, Value>, version: Option<Value>): Result<seq<byte>>
    requires AllWellFormed(gs)
  {
    if gs == [] then Success([])
    else if gs[0].leader.requiredVersion != 0 && version.None? then Failure(AttributeError)
    else if version.Some? && Skipped(gs[0], version.value) then Encode(gs[1..], data, version)
    else
      var segment :- WriteBytesSpec(gs[0], data);
      var rest :- Encode(gs[1..], data, version);
      Success(segment + rest)
  }

  /** to_data exactly as written: `extra.get` on a missing extra dictionary fails. */
  function ToDataAsWritten(cls: PacketClass, inst: Instance, extra: Option<map<string, Value>>): Result<seq<byte>>
    requires AllWellFormed(cls.parsingFields)
  {
    var version := if extra.Some? then Some(ActiveVersion(extra.value, DefaultVersionOf(cls))) else None;
    Encode(cls.parsingFields, DataOf(cls.fields, inst), version)
  }

  /** to_data with a missing extra dictionary read as an empty one, so default_version applies. */
  function ToDataSpec(cls: PacketClass, inst: Instance, extra: Option<map<string, Value>>): Result<seq<byte>>
    requires AllWellFormed(cls.parsingFields)
  {
    Encode(cls.parsingFields, DataOf(cls.fields, inst), Some(ActiveVersion(extra.GetOr(map[]), DefaultVersionOf(cls))))
  }

  /** A failure, or the given bytes followed by the successful rest. */
  function GlueBytes(prefix: seq<byte>, rest: Result<seq<byte>>): Result<seq<byte>> {
    if rest.Failure? then rest else Success(prefix + rest.value)
  }

  method ToData(cls: PacketClass, inst: Instance, extra: Option<map<string, Value>>) returns (r: Result<seq<byte>>)
    requires AllWellFormed(cls.parsingFields)
    ensures r == ToDataSpec(cls, inst, extra)
  {
    var data := DataOf(cls.fields, inst);
    var dict := extra.GetOr(map[]);
    var gs := cls.parsingFields;
    var version := ActiveVersion(dict, DefaultVersionOf(cls));
    var segments: seq<byte> := [];
    assert gs[0..] == gs;
    if ToDataSpec(cls, inst, extra).Success? {
      assert [] + ToDataSpec(cls, inst, extra).value == ToDataSpec(cls, inst, extra).value;
    }
    for k := 0 to |gs|
      invariant ToDataSpec(cls, inst, extra) == GlueBytes(segments, Encode(gs[k..], data, Some(version)))
    {
      var field := gs[k];
      assert gs[k..][0] == field && gs[k..][1..] == gs[k + 1..];
      if field.leader.requiredVersion != 0 {
        if PyLess(version, field.leader.requiredVersion) {
          continue;
        }
      }
      var segment := WriteBytes(field, data);
      if segment.Failure? {
        return Failure(segment.error);
      }
      var rest := Encode(gs[k + 1..], data, Some(version));
      if rest.Success? {
        assert segments + (segment.value + rest.value) == (segments + segment.value) + rest.value;
      }
      segments := segments + segment.value;
    }
    assert gs[|gs|..] == [];
    assert segments + [] == segments;
    return Success(segments);
  }

  // ---------------------------------------------------------------- from_data

  /** The state of the from_data loop: the values read so far, the extra dictionary, the index. */
  datatype Decoded = Decoded(all: map<string, Value>, extra: map<string, Value>, index: nat)

  /** The version-field test of from_data: a truthy name among the names just read. */
  predicate NamesVersion(versionField: Option<string>, read: set<string>) {
    versionField.Some? && versionField.value != "" && versionField.value in read
  }

  /** The extra dictionary after a parsing field has read `fieldData`: the version read, if any. */
  function NextExtra(versionField: Option<string>, fieldData: map<string, Value>, extra: map<string, Value>)
    : (e: map<string, Value>)
    ensures NamesVersion(versionField, fieldData.Keys) ==> ActiveVersion(e, 0) == fieldData[versionField.value]
    ensures !NamesVersion(versionField, fieldData.Keys) ==> e == extra
  {
    if NamesVersion(versionField, fieldData.Keys) then extra["version" := fieldData[versionField.value]] else extra
  }

  /** The from_data loop from parsing field gs[0] on. */
  function DecodeFrom(gs: seq<ParsingField>, data: seq<byte>, index: nat, extra: map<string, Value>,
                      defaultVersion: int, versionField: Option<string>, all: map<string, Value>): Result<Decoded>
    requires AllWellFormed(gs)
  {
    if gs == [] then Success(Decoded(all, extra, index))
    else if Skipped(gs[0], ActiveVersion(extra, defaultVersion)) then
      DecodeFrom(gs[1..], data, index, extra, defaultVersion, versionField, all)
    else
      var read :- ReadBytesSpec(gs[0], data, index);
      var fieldData := read.0;
      DecodeFrom(gs[1..], data, index + read.1, NextExtra(versionField, fieldData, extra), defaultVersion,
                 versionField, all + fieldData)
  }

  /**
   * from_data: the new instance has every declared field set to the value read for it, or
   * None when nothing was read; the caller's extra dictionary ends with the version read.
   */
  function FromDataSpec(cls: PacketClass, data: seq<byte>, index: nat, extra: Option<map<string, Value>>)
    : Result<(Instance, map<string, Value>)>
    requires AllWellFormed(cls.parsingFields)
  {
    var d :- DecodeFrom(cls.parsingFields, data, index, extra.GetOr(map[]), DefaultVersionOf(cls),
                        VersionField(cls.fields), map[]);
    Success((map n | n in NamesOf(cls.fields) :: Lookup(d.all, n), d.extra))
  }

  method FromData(cls: PacketClass, data: seq<byte>, index: nat, extra: Option<map<string, Value>>)
    returns (r: Result<(Instance, map<string, Value>)>)
    requires AllWellFormed(cls.parsingFields)
    ensures r == FromDataSpec(cls, data, index, extra)
  {
    var allFields: map<string, Value> := map[];
    var dict := extra.GetOr(map[]);
    var defaultVersion := DefaultVersionOf(cls);

    var versionField: Option<string> := None;
    for k := 0 to |cls.fields|
      invariant versionField == VersionField(cls.fields[..k])
    {
      assert cls.fields[..k + 1][..k] == cls.fields[..k];
      if cls.fields[k].isVersionIdentifier {
        versionField := Some(cls.fields[k].name);
      }
    }
    assert cls.fields[..|cls.fields|] == cls.fields;

    var gs := cls.parsingFields;
    var i := index;
    assert gs[0..] == gs;
    for k := 0 to |gs|
      invariant DecodeFrom(gs, data, index, extra.GetOr(map[]), defaultVersion, versionField, map[])
             == DecodeFrom(gs[k..], data, i, dict, defaultVersion, versionField, allFields)
    {
      var field := gs[k];
      assert gs[k..][0] == field && gs[k..][1..] == gs[k + 1..];
      if field.leader.requiredVersion != 0 {
        if PyLess(ActiveVersion(dict, defaultVersion), field.leader.requiredVersion) {
          continue;
        }
      }
      var read := ReadBytes(field, data, i);
      if read.Failure? {
        return Failure(read.error);
      }
      var fieldData := read.value.0;
      var length := read.value.1;
      if versionField.Some? && versionField.value != "" && versionField.value in fieldData {
        dict := dict["version" := fieldData[versionField.value]];
      }
      i := i + length;
      allFields := allFields + fieldData;
    }
    assert gs[|gs|..] == [];
    var obj := map n | n in NamesOf(cls.fields) :: Lookup(allFields, n);
    return Success((obj, dict));
  }

  // ---------------------------------------------------------------- round trip

  /** The names of the fields that a version leaves active. */
  function ActiveNames(gs: seq<ParsingField>, version: Value): set<string> {
    if gs == [] then {}
    else (if Skipped(gs[0], version) then {} else NamesOf(Members(gs[0]))) + ActiveNames(gs[1..], version)
  }

  /** The values from_data reads back for the active fields. */
  function ActiveMap(gs: seq<ParsingField>, data: map<string, Value>, version: Value): map<string, Value> {
    map n | n in ActiveNames(gs, version) :: Lookup(data, n)
  }

  /**
   * While decoding, every parsing field is gated exactly as it was while encoding with
   * `version`: `start` is the version in effect before gs[0], and reading an active
   * version field replaces it with the value the packet carries there.
   */
  predicate VersionConsistent(gs: seq<ParsingField>, versionField: Option<string>, start: Value, version: Value,
                              data: map<string, Value>)
  {
    gs == [] ||
    ((Skipped(gs[0], start) <==> Skipped(gs[0], version))
     && var next := if !Skipped(gs[0], version) && NamesVersion(versionField, NamesOf(Members(gs[0])))
                    then Lookup(data, versionField.value) else start;
        VersionConsistent(gs[1..], versionField, next, version, data))
  }

  /** The fields of a group all have a fitting value in `data`. */
  predicate GroupFits(g: ParsingField, data: map<string, Value>) {
    forall k :: 0 <= k < |Members(g)| ==> Members(g)[k].name in data && FieldFits(Members(g)[k], data[Members(g)[k].name])
  }

  /** read_bytes inverts write_bytes for any prepared parsing field, string or struct. */
  lemma GroupRoundTrip(g: ParsingField, data: map<string, Value>, before: seq<byte>, after: seq<byte>)
    requires IsPrepared(g) && GroupFits(g, data)
    ensures NamesOf(Members(g)) <= data.Keys
    ensures WriteBytesSpec(g, data).Success?
    ensures ReadBytesSpec(g, before + WriteBytesSpec(g, data).value + after, |before|)
         == Success((Project(Members(g), data), |WriteBytesSpec(g, data).value|))
  {
    if g.leader.kind.StringKind? {
      assert Members(g) == [g.leader];
      var v := data[g.leader.name];
      StringRoundTrip(g.leader, v, before, after);
      assert NamesOf(Members(g)) == {g.leader.name};
      assert Project(Members(g), data) == map[g.leader.name := v];
    } else {
      assert MembersFit(Members(g), data);
      StructGroupRoundTrip(g, g, data, before, after);
    }
  }

  lemma ActiveMapCons(gs: seq<ParsingField>, data: map<string, Value>, version: Value, all: map<string, Value>)
    requires gs != [] && !Skipped(gs[0], version) && NamesOf(Members(gs[0])) <= data.Keys
    ensures all + Project(Members(gs[0]), data) + ActiveMap(gs[1..], data, version) == all + ActiveMap(gs, data, version)
  {
  }

  lemma ActiveMapSkip(gs: seq<ParsingField>, data: map<string, Value>, version: Value)
    requires gs != [] && Skipped(gs[0], version)
    ensures ActiveMap(gs[1..], data, version) == ActiveMap(gs, data, version)
  {
    assert ActiveNames(gs, version) == ActiveNames(gs[1..], version);
  }

  /**
   * Encoding gs under `version` succeeds, and decoding the bytes placed between `before`
   * and `after` reads back `all` updated with the active fields' values, ending right
   * after the encoding.
   */
  predicate DecodesBack(gs: seq<ParsingField>, data: map<string, Value>, version: Value,
                        versionField: Option<string>, extra: map<string, Value>, defaultVersion: int,
                        before: seq<byte>, after: seq<byte>, all: map<string, Value>)
    requires AllWellFormed(gs)
  {
    var e := Encode(gs, data, Some(version));
    e.Success? &&
    var d := DecodeFrom(gs, before + e.value + after, |before|, extra, defaultVersion, versionField, all);
    d.Success? && d.value.all == all + ActiveMap(gs, data, version) && d.value.index == |before| + |e.value|
  }

  lemma DecodesBackIntro(gs: seq<ParsingField>, data: map<string, Value>, version: Value,
                         versionField: Option<string>, extra: map<string, Value>, defaultVersion: int,
                         before: seq<byte>, after: seq<byte>, all: map<string, Value>, enc: seq<byte>)
    requires AllWellFormed(gs) && Encode(gs, data, Some(version)) == Success(enc)
    requires var d := DecodeFrom(gs, before + enc + after, |before|, extra, defaultVersion, versionField, all);
             d.Success? && d.value.all == all + ActiveMap(gs, data, version) && d.value.index == |before| + |enc|
    ensures DecodesBack(gs, data, version, versionField, extra, defaultVersion, before, after, all)
  {
  }

  lemma DecodesBackElim(gs: seq<ParsingField>, data: map<string, Value>, version: Value,
                        versionField: Option<string>, extra: map<string, Value>, defaultVersion: int,
                        before: seq<byte>, after: seq<byte>, all: map<string, Value>)
    requires AllWellFormed(gs)
    requires DecodesBack(gs, data, version, versionField, extra, defaultVersion, before, after, all)
    ensures Encode(gs, data, Some(version)).Success?
    ensures var enc := Encode(gs, data, Some(version)).value;
            var d := DecodeFrom(gs, before + enc + after, |before|, extra, defaultVersion, versionField, all);
            d.Success? && d.value.all == all + ActiveMap(gs, data, version) && d.value.index == |before| + |enc|
  {
  }

  lemma DecodeEncodeSkip(gs: seq<ParsingField>, data: map<string, Value>, version: Value,
                         versionField: Option<string>, extra: map<string, Value>, defaultVersion: int,
                         before: seq<byte>, after: seq<byte>, all: map<string, Value>)
    requires gs != [] && AllWellFormed(gs)
    requires Skipped(gs[0], version) && Skipped(gs[0], ActiveVersion(extra, defaultVersion))
    requires DecodesBack(gs[1..], data, version, versionField, extra, defaultVersion, before, after, all)
    ensures DecodesBack(gs, data, version, versionField, extra, defaultVersion, before, after, all)
  {
    assert Encode(gs, data, Some(version)) == Encode(gs[1..], data, Some(version));
    var bytes := before + Encode(gs, data, Some(version)).value + after;
    assert DecodeFrom(gs, bytes, |before|, extra, defaultVersion, versionField, all)
        == DecodeFrom(gs[1..], bytes, |before|, extra, defaultVersion, versionField, all);
    ActiveMapSkip(gs, data, version);
  }

  lemma EncodeCons(gs: seq<ParsingField>, data: map<string, Value>, version: Value)
    requires gs != [] && AllWellFormed(gs)
    requires !Skipped(gs[0], version)
    requires WriteBytesSpec(gs[0], data).Success? && Encode(gs[1..], data, Some(version)).Success?
    ensures AllWellFormed(gs[1..])
    ensures Encode(gs, data, Some(version))
         == Success(WriteBytesSpec(gs[0], data).value + Encode(gs[1..], data, Some(version)).value)
  {
  }

  lemma DecodeFromActive(gs: seq<ParsingField>, bytes: seq<byte>, index: nat, extra: map<string, Value>,
                         defaultVersion: int, versionField: Option<string>, all: map<string, Value>,
                         fieldData: map<string, Value>, length: nat)
    requires gs != [] && AllWellFormed(gs) && !Skipped(gs[0], ActiveVersion(extra, defaultVersion))
    requires ReadBytesSpec(gs[0], bytes, index) == Success((fieldData, length))
    ensures AllWellFormed(gs[1..])
    ensures DecodeFrom(gs, bytes, index, extra, defaultVersion, versionField, all)
         == DecodeFrom(gs[1..], bytes, index + length, NextExtra(versionField, fieldData, extra),
                       defaultVersion, versionField, all + fieldData)
  {
  }

  /** Reading an active parsing field and then the rest is reading from that field on. */
  lemma DecodeActiveChain(gs: seq<ParsingField>, bytes: seq<byte>, start: nat, length: nat, next: nat, stop: nat,
                          extra: map<string, Value>, defaultVersion: int, versionField: Option<string>,
                          all: map<string, Value>, fieldData: map<string, Value>, target: map<string, Value>)
    requires gs != [] && AllWellFormed(gs) && !Skipped(gs[0], ActiveVersion(extra, defaultVersion))
    requires ReadBytesSpec(gs[0], bytes, start) == Success((fieldData, length)) && next == start + length
    requires var d := DecodeFrom(gs[1..], bytes, next, NextExtra(versionField, fieldData, extra),
                                 defaultVersion, versionField, all + fieldData);
             d.Success? && d.value.all == target && d.value.index == stop
    ensures var d := DecodeFrom(gs, bytes, start, extra, defaultVersion, versionField, all);
            d.Success? && d.value.all == target && d.value.index == stop
  {
    DecodeFromActive(gs, bytes, start, extra, defaultVersion, versionField, all, fieldData, length);
  }

  lemma Regroup(a: seq<byte>, b: seq<byte>, c: seq<byte>, d: seq<byte>)
    ensures a + b + (c + d) == a + b + c + d == a + (b + c) + d
  {
  }

  /** One active parsing field: its bytes come first, and reading them back leads into the rest. */
  lemma DecodeEncodeStep(gs: seq<ParsingField>, data: map<string, Value>, version: Value,
                         versionField: Option<string>, extra: map<string, Value>, defaultVersion: int,
                         before: seq<byte>, after: seq<byte>, all: map<string, Value>)
    requires gs != [] && AllWellFormed(gs)
    requires !Skipped(gs[0], version) && !Skipped(gs[0], ActiveVersion(extra, defaultVersion))
    requires NamesOf(Members(gs[0])) <= data.Keys && WriteBytesSpec(gs[0], data).Success?
    requires forall tail: seq<byte> ::
               ReadBytesSpec(gs[0], before + WriteBytesSpec(gs[0], data).value + tail, |before|)
               == Success((Project(Members(gs[0]), data), |WriteBytesSpec(gs[0], data).value|))
    requires DecodesBack(gs[1..], data, version, versionField,
                         NextExtra(versionField, Project(Members(gs[0]), data), extra), defaultVersion,
                         before + WriteBytesSpec(gs[0], data).value, after, all + Project(Members(gs[0]), data))
    ensures DecodesBack(gs, data, version, versionField, extra, defaultVersion, before, after, all)
  {
    var g := gs[0];
    var fieldData := Project(Members(g), data);
    var extra' := NextExtra(versionField, fieldData, extra);
    var segment := WriteBytesSpec(g, data).value;
    DecodesBackElim(gs[1..], data, version, versionField, extra', defaultVersion,
                    before + segment, after, all + fieldData);
    var rest := Encode(gs[1..], data, Some(version)).value;
    Regroup(before, segment, rest, after);
    assert ReadBytesSpec(g, before + segment + (rest + after), |before|) == Success((fieldData, |segment|));
    ActiveMapCons(gs, data, version, all);
    DecodeActiveChain(gs, before + segment + rest + after, |before|, |segment|, |before + segment|,
                      |before + segment| + |rest|,
                      extra, defaultVersion, versionField, all, fieldData, all + ActiveMap(gs, data, version));
    EncodeCons(gs, data, version);
    DecodesBackIntro(gs, data, version, versionField, extra, defaultVersion, before, after, all, segment + rest);
  }

  /**
   * The core round trip: decoding what the parsing fields encode, with the gating kept in
   * step, reads back exactly the active fields' values and consumes exactly the encoding.
   */
  lemma {:induction false} DecodeEncode(gs: seq<ParsingField>, data: map<string, Value>, version: Value,
                                        versionField: Option<string>, extra: map<string, Value>,
                                        defaultVersion: int, before: seq<byte>, after: seq<byte>,
                                        all: map<string, Value>)
    requires forall j :: 0 <= j < |gs| ==> IsPrepared(gs[j]) && GroupFits(gs[j], data)
    requires VersionConsistent(gs, versionField, ActiveVersion(extra, defaultVersion), version, data)
    ensures AllWellFormed(gs)
    ensures DecodesBack(gs, data, version, versionField, extra, defaultVersion, before, after, all)
    decreases |gs|
  {
    if gs == [] {
      assert Encode(gs, data, Some(version)) == Success([]);
      assert ActiveMap(gs, data, version) == map[];
      assert all + map[] == all;
      assert before + [] + after == before + after;
    } else {
      var g := gs[0];
      assert forall j :: 0 <= j < |gs[1..]| ==> gs[1..][j] == gs[j + 1];
      if Skipped(g, version) {
        DecodeEncode(gs[1..], data, version, versionField, extra, defaultVersion, before, after, all);
        DecodeEncodeSkip(gs, data, version, versionField, extra, defaultVersion, before, after, all);
      } else {
        GroupRoundTrip(g, data, before, []);
        var fieldData := Project(Members(g), data);
        var extra' := NextExtra(versionField, fieldData, extra);
        assert ActiveVersion(extra', defaultVersion)
            == if NamesVersion(versionField, NamesOf(Members(g))) then Lookup(data, versionField.value)
               else ActiveVersion(extra, defaultVersion);
        var segment := WriteBytesSpec(g, data).value;
        DecodeEncode(gs[1..], data, version, versionField, extra', defaultVersion,
                     before + segment, after, all + fieldData);
        forall tail: seq<byte>
          ensures ReadBytesSpec(g, before + segment + tail, |before|) == Success((fieldData, |segment|))
        {
          GroupRoundTrip(g, data, before, tail);
        }
        DecodeEncodeStep(gs, data, version, versionField, extra, defaultVersion, before, after, all);
      }
    }
  }

  /** Every declared field of the class has a value its kind can carry. */
  predicate InstanceFits(fields: seq<Field>, inst: Instance) {
    forall k :: 0 <= k < |fields| ==> fields[k].name in inst && FieldFits(fields[k], inst[fields[k].name])
  }

  lemma {:induction false} MemberInFlatten(gs: seq<ParsingField>, j: nat, k: nat)
    requires j < |gs| && k < |Members(gs[j])|
    ensures Members(gs[j])[k] in Flatten(gs)
    decreases j
  {
    if j > 0 {
      assert gs[1..][j - 1] == gs[j];
      MemberInFlatten(gs[1..], j - 1, k);
    }
  }

  lemma {:induction false} ActiveNamesInFlatten(gs: seq<ParsingField>, version: Value, n: string)
    requires n in ActiveNames(gs, version)
    ensures exists f :: f in Flatten(gs) && f.name == n
  {
    if n in NamesOf(Members(gs[0])) && !Skipped(gs[0], version) {
      var k :| 0 <= k < |Members(gs[0])| && Members(gs[0])[k].name == n;
      MemberInFlatten(gs, 0, k);
    } else {
      ActiveNamesInFlatten(gs[1..], version, n);
      var f :| f in Flatten(gs[1..]) && f.name == n;
      assert f in Flatten(gs);
    }
  }

  /**
   * When the packet's version field carries the very version it was encoded with, decoding
   * gates every parsing field as encoding did.
   */
  lemma {:induction false} VersionConsistentSame(gs: seq<ParsingField>, versionField: Option<string>, version: Value,
                                                 data: map<string, Value>)
    requires forall j :: 0 <= j < |gs| && !Skipped(gs[j], version) && NamesVersion(versionField, NamesOf(Members(gs[j])))
               ==> Lookup(data, versionField.value) == version
    ensures VersionConsistent(gs, versionField, version, version, data)
  {
    if gs != [] {
      assert forall j :: 0 <= j < |gs[1..]| ==> gs[1..][j] == gs[j + 1];
      VersionConsistentSame(gs[1..], versionField, version, data);
    }
  }

  lemma GroupsFit(cls: PacketClass, inst: Instance)
    requires forall f :: f in Flatten(cls.parsingFields) ==> f in cls.fields
    requires InstanceFits(cls.fields, inst)
    ensures forall j :: 0 <= j < |cls.parsingFields| ==> GroupFits(cls.parsingFields[j], DataOf(cls.fields, inst))
  {
    var gs := cls.parsingFields;
    var data := DataOf(cls.fields, inst);
    forall j | 0 <= j < |gs| ensures GroupFits(gs[j], data) {
      forall k | 0 <= k < |Members(gs[j])|
        ensures Members(gs[j])[k].name in data && FieldFits(Members(gs[j])[k], data[Members(gs[j])[k].name])
      {
        var m := Members(gs[j])[k];
        MemberInFlatten(gs, j, k);
        var i :| 0 <= i < |cls.fields| && cls.fields[i] == m;
        assert m.name in NamesOf(cls.fields);
      }
    }
  }

  lemma DecodedFields(cls: PacketClass, inst: Instance, version: Value, all: map<string, Value>)
    requires forall f :: f in Flatten(cls.parsingFields) ==> f in cls.fields
    requires InstanceFits(cls.fields, inst)
    requires all == map[] + ActiveMap(cls.parsingFields, DataOf(cls.fields, inst), version)
    ensures (map n | n in NamesOf(cls.fields) :: Lookup(all, n))
         == (map n | n in NamesOf(cls.fields) :: if n in ActiveNames(cls.parsingFields, version) then inst[n] else VNone)
  {
    forall n | n in NamesOf(cls.fields) && n in ActiveNames(cls.parsingFields, version)
      ensures Lookup(all, n) == inst[n]
    {
      var i :| 0 <= i < |cls.fields| && cls.fields[i].name == n;
    }
  }

  /**
   * to_data then from_data on a prepared class: every declared field comes back with the
   * instance's value when its parsing field is active under the encoding version, and as
   * None otherwise; the decoder consumes exactly the encoding.
   */
  lemma PacketRoundTrip(cls: PacketClass, inst: Instance, encodeExtra: Option<map<string, Value>>,
                        decodeExtra: Option<map<string, Value>>)
    requires forall j :: 0 <= j < |cls.parsingFields| ==> IsPrepared(cls.parsingFields[j])
    requires forall f :: f in Flatten(cls.parsingFields) ==> f in cls.fields
    requires InstanceFits(cls.fields, inst)
    requires VersionConsistent(cls.parsingFields, VersionField(cls.fields),
                               ActiveVersion(decodeExtra.GetOr(map[]), DefaultVersionOf(cls)),
                               ActiveVersion(encodeExtra.GetOr(map[]), DefaultVersionOf(cls)),
                               DataOf(cls.fields, inst))
    ensures AllWellFormed(cls.parsingFields)
    ensures ToDataSpec(cls, inst, encodeExtra).Success?
    ensures var version := ActiveVersion(encodeExtra.GetOr(map[]), DefaultVersionOf(cls));
            var decoded := FromDataSpec(cls, ToDataSpec(cls, inst, encodeExtra).value, 0, decodeExtra);
            decoded.Success?
            && decoded.value.0 == map n | n in NamesOf(cls.fields) ::
                                    if n in ActiveNames(cls.parsingFields, version) then inst[n] else VNone
  {
    var gs := cls.parsingFields;
    var data := DataOf(cls.fields, inst);
    var version := ActiveVersion(encodeExtra.GetOr(map[]), DefaultVersionOf(cls));
    GroupsFit(cls, inst);
    DecodeEncode(gs, data, version, VersionField(cls.fields), decodeExtra.GetOr(map[]), DefaultVersionOf(cls),
                 [], [], map[]);
    DecodesBackElim(gs, data, version, VersionField(cls.fields), decodeExtra.GetOr(map[]), DefaultVersionOf(cls),
                    [], [], map[]);
    var enc := Encode(gs, data, Some(version)).value;
    assert [] + enc + [] == enc;
    var d := DecodeFrom(gs, enc, 0, decodeExtra.GetOr(map[]), DefaultVersionOf(cls), VersionField(cls.fields), map[]);
    DecodedFields(cls, inst, version, d.value.all);
  }

  // ---------------------------------------------------------------- gating per field

  /** A single field is active under `version` unless its (truthy) required version is above it. */
  predicate FieldActive(f: Field, version: Value) {
    !(f.requiredVersion != 0 && PyLess(version, f.requiredVersion))
  }

  /** Some field of `fields` called `n` is active under `version`. */
  predicate NameActive(fields: seq<Field>, n: string, version: Value) {
    exists f :: f in fields && f.name == n && FieldActive(f, version)
  }

  /** Every neighbour of every group carries its leader's required version. */
  predicate VersionHomogeneous(gs: seq<ParsingField>) {
    forall j, k :: 0 <= j < |gs| && 0 <= k < |gs[j].neighbours| ==>
      gs[j].neighbours[k].requiredVersion == gs[j].leader.requiredVersion
  }

  /**
   * With version-homogeneous groups, gating a whole group by its leader is gating each
   * field by its own required version: a name is active exactly when some field listed by
   * the groups carries it and is itself active.
   */
  lemma {:induction false} ActiveNamesPerField(gs: seq<ParsingField>, version: Value)
    requires VersionHomogeneous(gs)
    ensures forall n :: n in ActiveNames(gs, version) <==>
                          exists f :: f in Flatten(gs) && f.name == n && FieldActive(f, version)
  {
    if gs != [] {
      var g := gs[0];
      assert VersionHomogeneous(gs[1..]) by {
        forall j, k | 0 <= j < |gs[1..]| && 0 <= k < |gs[1..][j].neighbours|
          ensures gs[1..][j].neighbours[k].requiredVersion == gs[1..][j].leader.requiredVersion
        {
          assert gs[1..][j] == gs[j + 1];
        }
      }
      ActiveNamesPerField(gs[1..], version);
      assert Flatten(gs) == Members(g) + Flatten(gs[1..]);
      forall m | m in Members(g) ensures m.requiredVersion == g.leader.requiredVersion {
        var k :| 0 <= k < |Members(g)| && Members(g)[k] == m;
        if k > 0 {
          assert m == g.neighbours[k - 1];
        }
      }
      forall n ensures n in ActiveNames(gs, version) <==>
                        exists f :: f in Flatten(gs) && f.name == n && FieldActive(f, version)
      {
        if n in ActiveNames(gs, version) && n !in ActiveNames(gs[1..], version) {
          var k :| 0 <= k < |Members(g)| && Members(g)[k].name == n;
          assert Members(g)[k] in Flatten(gs) && FieldActive(Members(g)[k], version);
        }
        if exists f :: f in Flatten(gs) && f.name == n && FieldActive(f, version) {
          var f :| f in Flatten(gs) && f.name == n && FieldActive(f, version);
          if f in Members(g) {
            var k :| 0 <= k < |Members(g)| && Members(g)[k] == f;
            assert !Skipped(g, version) && n in NamesOf(Members(g));
          } else {
            assert f in Flatten(gs[1..]);
          }
        }
      }
    }
  }

  /**
   * For a class prepared with the version-respecting merge rule, a field name is active
   * under `version` exactly when a declared field of that name is itself not gated out.
   */
  lemma PreparedActiveNames(cls: PacketClass, version: Value)
    requires PreparedFrom(cls)
    ensures forall n :: n in ActiveNames(cls.parsingFields, version) <==> NameActive(cls.fields, n, version)
  {
    PrepareSchemaShape(SameVersionStruct, cls.fields);
    var sorted := SortByOrdering(cls.fields);
    MergeRunsProperties(SameVersionStruct, sorted);
    assert cls.parsingFields == PrepareAllSpec(MergeRuns(SameVersionStruct, sorted)).value;
    assert VersionHomogeneous(cls.parsingFields) by {
      var gs := cls.parsingFields;
      forall j, k | 0 <= j < |gs| && 0 <= k < |gs[j].neighbours|
        ensures gs[j].neighbours[k].requiredVersion == gs[j].leader.requiredVersion
      {
        assert CanMerge(SameVersionStruct, gs[j].leader, gs[j].neighbours[k]);
      }
    }
    ActiveNamesPerField(cls.parsingFields, version);
    forall f ensures f in Flatten(cls.parsingFields) <==> f in cls.fields {
      assert f in cls.fieldsSorted <==> f in multiset(cls.fieldsSorted);
      assert f in cls.fields <==> f in multiset(cls.fields);
    }
    forall n ensures n in ActiveNames(cls.parsingFields, version) <==> NameActive(cls.fields, n, version) {
      if NameActive(cls.fields, n, version) {
        var f :| f in cls.fields && f.name == n && FieldActive(f, version);
        assert f in Flatten(cls.parsingFields);
      }
    }
  }

  /**
   * The round trip field by field: for a prepared class, `from_data(to_data(p))` gives back
   * every declared field whose own required version the encoding version meets, and None
   * for every other declared field.
   */
  lemma PacketRoundTripPerField(cls: PacketClass, inst: Instance, encodeExtra: Option<map<string, Value>>,
                                decodeExtra: Option<map<string, Value>>)
    requires PreparedFrom(cls)
    requires InstanceFits(cls.fields, inst)
    requires VersionConsistent(cls.parsingFields, VersionField(cls.fields),
                               ActiveVersion(decodeExtra.GetOr(map[]), DefaultVersionOf(cls)),
                               ActiveVersion(encodeExtra.GetOr(map[]), DefaultVersionOf(cls)),
                               DataOf(cls.fields, inst))
    ensures AllWellFormed(cls.parsingFields)
    ensures ToDataSpec(cls, inst, encodeExtra).Success?
    ensures var version := ActiveVersion(encodeExtra.GetOr(map[]), DefaultVersionOf(cls));
            var decoded := FromDataSpec(cls, ToDataSpec(cls, inst, encodeExtra).value, 0, decodeExtra);
            decoded.Success?
            && decoded.value.0 == map n | n in NamesOf(cls.fields) ::
                                    if NameActive(cls.fields, n, version) then inst[n] else VNone
  {
    var version := ActiveVersion(encodeExtra.GetOr(map[]), DefaultVersionOf(cls));
    PreparedReady(cls);
    PacketRoundTrip(cls, inst, encodeExtra, decodeExtra);
    ActiveMapsAgree(cls, inst, version);
  }

  /** What the codec asks of a class, for one that _prepare built. */
  lemma PreparedReady(cls: PacketClass)
    requires PreparedFrom(cls)
    ensures forall j :: 0 <= j < |cls.parsingFields| ==> IsPrepared(cls.parsingFields[j])
    ensures forall f :: f in Flatten(cls.parsingFields) ==> f in cls.fields
  {
    PrepareSchemaShape(SameVersionStruct, cls.fields);
    forall f | f in Flatten(cls.parsingFields) ensures f in cls.fields {
      assert f in multiset(cls.fieldsSorted);
    }
  }

  lemma ActiveMapsAgree(cls: PacketClass, inst: Instance, version: Value)
    requires PreparedFrom(cls)
    requires InstanceFits(cls.fields, inst)
    ensures (map n | n in NamesOf(cls.fields) ::
               if n in ActiveNames(cls.parsingFields, version) then inst[n] else VNone)
         == (map n | n in NamesOf(cls.fields) ::
               if NameActive(cls.fields, n, version) then inst[n] else VNone)
  {
    PreparedActiveNames(cls, version);
  }
}
