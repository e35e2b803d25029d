/**
 * Packet fields (libopenttd/packets/fields.py): the field kinds, the rule deciding which
 * adjacent fields merge into one parsing field, the preparation of a merged group into
 * one struct layout, and the group's write_bytes / read_bytes.
 */
module Fields {
  import opened Common
  import opened PyStruct

  /** How a struct field turns Python values into struct items and back. */
  datatype Conversion =
    | Plain    // from_python / to_python are the identity
    | Boolean  // from_python gives 1 or 0, to_python gives bool(item)

  datatype Kind =
    | StructKind(structType: string, fieldCount: nat, conversion: Conversion)
    | StringKind   // a NUL-terminated byte string; a plain Field, so it never merges

  /** A declared field: its attribute name, sort key, kind and version gating. */
  datatype Field = Field(
    name: string,
    ordering: int,
    kind: Kind,
    requiredVersion: int,        // 0 stands for "not gated" (a falsy required_version)
    isVersionIdentifier: bool,
    defaultValue: Value)

  // The concrete field kinds and their struct type codes.
  const CharKind := StructKind("c", 1, Plain)
  /** BooleanField with the type code the class declares. */
  const BooleanKindAsWritten := StructKind("c", 1, Boolean)
  /** BooleanField as one unsigned byte holding 1 or 0. */
  const BooleanKind := StructKind("B", 1, Boolean)
  const UByteKind := StructKind("B", 1, Plain)
  const SByteKind := StructKind("b", 1, Plain)
  const UShortKind := StructKind("H", 1, Plain)
  const SShortKind := StructKind("h", 1, Plain)
  const UIntKind := StructKind("I", 1, Plain)
  const SIntKind := StructKind("i", 1, Plain)
  const ULongLongKind := StructKind("Q", 1, Plain)
  const SLongLongKind := StructKind("q", 1, Plain)

  /** `data.get(name)`: a missing key reads as None. */
  function Lookup(data: map<string, Value>, name: string): Value {
    if name in data then data[name] else VNone
  }

  // ---------------------------------------------------------------- merging

  /**
   * Which merge predicate a leader applies. `AnyStruct` is StructField.can_merge as
   * declared; `SameVersionStruct` also demands the same required version, which the
   * version gating of whole parsing fields relies on.
   */
  datatype MergeRule = AnyStruct | SameVersionStruct

  predicate CanMerge(rule: MergeRule, leader: Field, other: Field) {
    leader.kind.StructKind? && other.kind.StructKind?
    && (rule == SameVersionStruct ==> leader.requiredVersion == other.requiredVersion)
  }

  /** A parsing field: a leader, the neighbours merged into it, and what _prepare computed. */
  datatype ParsingField = ParsingField(
    leader: Field,
    neighbours: seq<Field>,
    layout: seq<Code>,
    length: nat,
    totalFields: nat)

  /** The fields a group covers, leader first, then neighbours in merge order. */
  function Members(g: ParsingField): (ms: seq<Field>)
    ensures |ms| == |g.neighbours| + 1 && ms[0] == g.leader && ms[1..] == g.neighbours
  {
    [g.leader] + g.neighbours
  }

  /** A field that starts a new parsing field: no neighbours and nothing prepared yet. */
  function StartGroup(f: Field): ParsingField {
    ParsingField(f, [], [], 0, 0)
  }

  /** What merging can produce: a string leader alone, a struct leader with struct neighbours. */
  predicate WellFormed(g: ParsingField) {
    (g.leader.kind.StringKind? ==> g.neighbours == [])
    && forall k :: 0 <= k < |g.neighbours| ==> g.neighbours[k].kind.StructKind?
  }

  predicate AllStruct(ms: seq<Field>) {
    forall k :: 0 <= k < |ms| ==> ms[k].kind.StructKind?
  }

  // ---------------------------------------------------------------- preparation

  /** The concatenated struct_type of a group's members. */
  function GroupFormat(ms: seq<Field>): string
    requires AllStruct(ms)
  {
    if ms == [] then "" else ms[0].kind.structType + GroupFormat(ms[1..])
  }

  /** The summed field_count of a group's members. */
  function TotalCount(ms: seq<Field>): nat
    requires AllStruct(ms)
  {
    if ms == [] then 0 else ms[0].kind.fieldCount + TotalCount(ms[1..])
  }

  /** StructField._prepare; a string leader's _prepare does nothing. */
  function PrepareGroupSpec(g: ParsingField): Result<ParsingField>
    requires WellFormed(g)
  {
    if g.leader.kind.StringKind? then Success(g)
    else
      var layout :- BuildStruct(GroupFormat(Members(g)));
      Success(g.(layout := layout, length := Size(layout), totalFields := TotalCount(Members(g))))
  }

  method PrepareGroup(g: ParsingField) returns (r: Result<ParsingField>)
    requires WellFormed(g)
    ensures r == PrepareGroupSpec(g)
  {
    if g.leader.kind.StringKind? {
      return Success(g);
    }
    var ms := Members(g);
    var fmt := g.leader.kind.structType;
    var amt := g.leader.kind.fieldCount;
    for k := 0 to |g.neighbours|
      invariant fmt + GroupFormat(ms[k + 1..]) == GroupFormat(ms)
      invariant amt + TotalCount(ms[k + 1..]) == TotalCount(ms)
    {
      var neigh := g.neighbours[k];
      assert ms[k + 1..][0] == neigh && ms[k + 1..][1..] == ms[k + 2..];
      fmt := fmt + neigh.kind.structType;
      amt := amt + neigh.kind.fieldCount;
    }
    assert ms[|g.neighbours| + 1..] == [];
    assert fmt == GroupFormat(ms) && amt == TotalCount(ms);
    var layout := BuildStruct(fmt);
    if layout.Failure? {
      return Failure(layout.error);
    }
    return Success(g.(layout := layout.value, length := Size(layout.value), totalFields := amt));
  }

  /** The type codes each member declares, in member order (when every struct_type parses). */
  function MemberCodes(ms: seq<Field>): seq<Code>
    requires AllStruct(ms)
    requires forall k :: 0 <= k < |ms| ==> ParseCodes(ms[k].kind.structType).Success?
  {
    if ms == [] then [] else ParseCodes(ms[0].kind.structType).value + MemberCodes(ms[1..])
  }

  lemma {:induction false} ParseGroupFormat(ms: seq<Field>)
    requires AllStruct(ms)
    requires forall k :: 0 <= k < |ms| ==> ParseCodes(ms[k].kind.structType).Success?
    ensures ParseCodes(GroupFormat(ms)) == Success(MemberCodes(ms))
  {
    if ms != [] {
      ParseGroupFormat(ms[1..]);
      ParseCodesAppend(ms[0].kind.structType, GroupFormat(ms[1..]));
    }
  }

  /**
   * A prepared struct group: its layout is the leader's codes followed by each neighbour's,
   * its length is that layout's byte size and total_fields the summed field counts.
   */
  lemma PrepareGroupLayout(g: ParsingField)
    requires WellFormed(g) && g.leader.kind.StructKind?
    requires forall k :: 0 <= k < |Members(g)| ==> ParseCodes(Members(g)[k].kind.structType).Success?
    requires MemberCodes(Members(g)) != []
    ensures PrepareGroupSpec(g).Success?
    ensures PrepareGroupSpec(g).value.layout == MemberCodes(Members(g))
    ensures PrepareGroupSpec(g).value.length == Size(MemberCodes(Members(g)))
    ensures PrepareGroupSpec(g).value.totalFields == TotalCount(Members(g))
    ensures Members(PrepareGroupSpec(g).value) == Members(g)
  {
    var ms := Members(g);
    ParseGroupFormat(ms);
    ParseCodesLength(GroupFormat(ms));
  }

  // ---------------------------------------------------------------- value conversion

  /** Python truthiness. */
  predicate Truthy(v: Value) {
    match v
    case VNone => false
    case VInt(i) => i != 0
    case VBool(b) => b
    case VStr(s) => s != []
    case VTuple(items) => items != []
  }

  function FromPython(c: Conversion, v: Value): Value {
    match c
    case Plain => v
    case Boolean => VInt(if Truthy(v) then 1 else 0)
  }

  function ToPython(c: Conversion, v: Value): Value {
    match c
    case Plain => v
    case Boolean => VBool(Truthy(v))
  }

  /** What `list.extend(v)` appends: a tuple's items, a str's one-byte strs; else TypeError. */
  function Extend(v: Value): (r: Result<seq<Value>>)
    ensures v.VTuple? ==> r == Success(v.items)
    ensures v.VStr? ==> r.Success? && |r.value| == |v.s|
    ensures v.VStr? ==> forall k :: 0 <= k < |v.s| ==> r.value[k] == VStr([v.s[k]])
    ensures !v.VTuple? && !v.VStr? ==> r == Failure(TypeError)
  {
    match v
    case VTuple(items) => Success(items)
    case VStr(s) => Success(seq(|s|, k requires 0 <= k < |s| => VStr([s[k]])))
    case _ => Failure(TypeError)
  }

  /** The struct items one member contributes for value v. */
  function MemberItems(f: Field, v: Value): Result<seq<Value>>
    requires f.kind.StructKind?
  {
    var x := FromPython(f.kind.conversion, v);
    if f.kind.fieldCount == 1 then Success([x]) else Extend(x)
  }

  /** The value a member reads back from its run of unpacked items starting at i. */
  function MemberValue(f: Field, items: seq<Value>, i: nat): Value
    requires f.kind.StructKind?
    requires f.kind.fieldCount == 1 ==> i < |items|
  {
    var raw := if f.kind.fieldCount == 1 then items[i] else VTuple(Slice(items, i, i + f.kind.fieldCount));
    ToPython(f.kind.conversion, raw)
  }

  /** Python's `items[lo:hi]` for 0 <= lo <= hi: bounds past the end are clamped. */
  function Slice(items: seq<Value>, lo: nat, hi: nat): (r: seq<Value>)
    requires lo <= hi
    ensures hi <= |items| ==> r == items[lo..hi]
    ensures |items| <= lo ==> r == []
  {
    var a := if lo < |items| then lo else |items|;
    var b := if hi < |items| then hi else |items|;
    items[a..b]
  }

  // ---------------------------------------------------------------- writing

  /** The write_bytes loop over members: each member's items appended in order. */
  function GatherFrom(ms: seq<Field>, data: map<string, Value>, acc: seq<Value>): Result<seq<Value>>
    requires AllStruct(ms)
  {
    if ms == [] then Success(acc)
    else
      var items :- MemberItems(ms[0], Lookup(data, ms[0].name));
      GatherFrom(ms[1..], data, acc + items)
  }

  /** The NUL-terminated string a string field writes. */
  function WriteString(v: Value): Result<seq<byte>> {
    if v.VStr? then Success(v.s + [0]) else Failure(TypeError)
  }

  /** write_bytes of a parsing field over the packet's name-to-value dictionary. */
  function WriteBytesSpec(g: ParsingField, data: map<string, Value>): Result<seq<byte>>
    requires WellFormed(g)
  {
    if g.leader.kind.StringKind? then WriteString(Lookup(data, g.leader.name))
    else
      var values :- GatherFrom(Members(g), data, []);
      Pack(g.layout, values)
  }

  method WriteBytes(g: ParsingField, data: map<string, Value>) returns (r: Result<seq<byte>>)
    requires WellFormed(g)
    ensures r == WriteBytesSpec(g, data)
  {
    if g.leader.kind.StringKind? {
      return WriteString(Lookup(data, g.leader.name));
    }
    var ms := Members(g);
    var values: seq<Value> := [];
    for k := 0 to |ms|
      invariant GatherFrom(ms, data, []) == GatherFrom(ms[k..], data, values)
    {
      var field := ms[k];
      var value := Lookup(data, field.name);
      var x := FromPython(field.kind.conversion, value);
      if field.kind.fieldCount == 1 {
        values := values + [x];
      } else {
        var more := Extend(x);
        if more.Failure? {
          return Failure(more.error);
        }
        values := values + more.value;
      }
    }
    r := Pack(g.layout, values);
  }

  // ---------------------------------------------------------------- reading

  /** The read_bytes loop over members: member k takes items [i, i + field_count). */
  function AssignFrom(ms: seq<Field>, items: seq<Value>, i: nat, read: map<string, Value>): Result<map<string, Value>>
    requires AllStruct(ms)
  {
    if ms == [] then Success(read)
    else if ms[0].kind.fieldCount == 1 && i >= |items| then Failure(IndexError)
    else AssignFrom(ms[1..], items, i + ms[0].kind.fieldCount, read[ms[0].name := MemberValue(ms[0], items, i)])
  }

  /** Position of the first NUL byte at or after i. */
  function NulFrom(data: seq<byte>, i: nat): (r: Option<nat>)
    decreases |data| - i
    ensures r.Some? ==> i <= r.value < |data| && data[r.value] == 0
    ensures r.Some? ==> forall k :: i <= k < r.value ==> data[k] != 0
    ensures r.None? ==> forall k :: i <= k < |data| ==> data[k] != 0
  {
    if i >= |data| then None
    else if data[i] == 0 then Some(i)
    else NulFrom(data, i + 1)
  }

  /** A string field reads up to its NUL terminator and consumes the terminator too. */
  function ReadString(f: Field, data: seq<byte>, index: nat): Result<(map<string, Value>, nat)> {
    match NulFrom(data, index)
    case None => Failure(UnterminatedString)
    case Some(end) => Success((map[f.name := VStr(data[index..end])], end - index + 1))
  }

  /** read_bytes of a parsing field: the values it read by name, and the bytes it consumed. */
  function ReadBytesSpec(g: ParsingField, data: seq<byte>, index: nat): Result<(map<string, Value>, nat)>
    requires WellFormed(g)
  {
    if g.leader.kind.StringKind? then ReadString(g.leader, data, index)
    else
      var items :- Unpack(g.layout, data, index);
      if |items| != g.totalFields then Failure(InvalidReturnCount)
      else
        var read :- AssignFrom(Members(g), items, 0, map[]);
        Success((read, g.length))
  }

  method ReadBytes(g: ParsingField, data: seq<byte>, index: nat) returns (r: Result<(map<string, Value>, nat)>)
    requires WellFormed(g)
    ensures r == ReadBytesSpec(g, data, index)
  {
    if g.leader.kind.StringKind? {
      return ReadString(g.leader, data, index);
    }
    var unpack := Unpack(g.layout, data, index);
    if unpack.Failure? {
      return Failure(unpack.error);
    }
    var items := unpack.value;
    if |items| != g.totalFields {
      return Failure(InvalidReturnCount);
    }
    var ms := Members(g);
    var read: map<string, Value> := map[];
    var i: nat := 0;
    for k := 0 to |ms|
      invariant AssignFrom(ms, items, 0, map[]) == AssignFrom(ms[k..], items, i, read)
    {
      var field := ms[k];
      assert ms[k..][0] == field && ms[k..][1..] == ms[k + 1..];
      if field.kind.fieldCount == 1 && i >= |items| {
        return Failure(IndexError);
      }
      read := read[field.name := MemberValue(field, items, i)];
      i := i + field.kind.fieldCount;
    }
    return Success((read, g.length));
  }

  // ---------------------------------------------------------------- round trip

  /** The values a field writes and reads back unchanged. */
  predicate FieldFits(f: Field, v: Value) {
    match f.kind
    case StringKind => v.VStr? && forall k :: 0 <= k < |v.s| ==> v.s[k] != 0
    case StructKind(st, count, conv) =>
      ParseCodes(st).Success? && |ParseCodes(st).value| == count
      && match conv
         case Plain =>
           if count == 1 then Fits(ParseCodes(st).value[0], v)
           else v.VTuple? && AllFit(ParseCodes(st).value, v.items)
         case Boolean =>
           count == 1 && v.VBool? && Fits(ParseCodes(st).value[0], VInt(if v.b then 1 else 0))
  }

  /** A fitting value gives a run of items that fits the member's codes and reads back as the value. */
  lemma MemberItemsRoundTrip(f: Field, v: Value, items: seq<Value>, i: nat)
    requires f.kind.StructKind? && FieldFits(f, v)
    requires MemberItems(f, v).Success?
    requires i + |MemberItems(f, v).value| <= |items|
    requires items[i..i + |MemberItems(f, v).value|] == MemberItems(f, v).value
    ensures AllFit(ParseCodes(f.kind.structType).value, MemberItems(f, v).value)
    ensures MemberValue(f, items, i) == v
  {
    var run := MemberItems(f, v).value;
    if f.kind.fieldCount == 1 {
      assert items[i] == items[i..i + 1][0];
    }
  }

  lemma MemberItemsFit(f: Field, v: Value)
    requires f.kind.StructKind? && FieldFits(f, v)
    ensures MemberItems(f, v).Success?
    ensures |MemberItems(f, v).value| == f.kind.fieldCount
  {
  }

  /** Every member of ms is a struct field whose declared value fits it. */
  predicate MembersFit(ms: seq<Field>, data: map<string, Value>) {
    forall k :: 0 <= k < |ms| ==> ms[k].kind.StructKind? && ms[k].name in data && FieldFits(ms[k], data[ms[k].name])
  }

  lemma MembersFitTail(ms: seq<Field>, data: map<string, Value>)
    requires ms != [] && MembersFit(ms, data)
    ensures MembersFit(ms[1..], data)
  {
    forall k | 0 <= k < |ms| - 1
      ensures ms[1..][k].kind.StructKind? && ms[1..][k].name in data && FieldFits(ms[1..][k], data[ms[1..][k].name])
    {
      assert ms[1..][k] == ms[k + 1];
    }
  }

  /** The items a list of members writes: their runs, concatenated. */
  function Runs(ms: seq<Field>, data: map<string, Value>): (r: seq<Value>)
    requires MembersFit(ms, data)
  {
    if ms == [] then []
    else
      MemberItemsFit(ms[0], data[ms[0].name]);
      MemberItems(ms[0], data[ms[0].name]).value + Runs(ms[1..], data)
  }

  lemma {:induction false} GatherRuns(ms: seq<Field>, data: map<string, Value>, acc: seq<Value>)
    requires MembersFit(ms, data)
    ensures AllStruct(ms)
    ensures GatherFrom(ms, data, acc) == Success(acc + Runs(ms, data))
    ensures forall k :: 0 <= k < |ms| ==> ParseCodes(ms[k].kind.structType).Success?
    ensures AllFit(MemberCodes(ms), Runs(ms, data))
    ensures |Runs(ms, data)| == TotalCount(ms)
  {
    if ms == [] {
      assert acc + [] == acc;
    } else {
      var f := ms[0];
      var v := data[f.name];
      MemberItemsFit(f, v);
      var run := MemberItems(f, v).value;
      MembersFitTail(ms, data);
      GatherRuns(ms[1..], data, acc + run);
      assert acc + run + Runs(ms[1..], data) == acc + Runs(ms, data);
      MemberItemsRoundTrip(f, v, run, 0);
      AllFitAppend(ParseCodes(f.kind.structType).value, run, MemberCodes(ms[1..]), Runs(ms[1..], data));
    }
  }

  /** The names of a list of fields. */
  function NamesOf(ms: seq<Field>): set<string> {
    set k | 0 <= k < |ms| :: ms[k].name
  }

  /** The dictionary read_bytes builds for values that fit: each member's own value. */
  function Project(ms: seq<Field>, data: map<string, Value>): (r: map<string, Value>)
    requires NamesOf(ms) <= data.Keys
    ensures r.Keys == NamesOf(ms)
    ensures forall n :: n in r ==> r[n] == data[n]
  {
    map n | n in NamesOf(ms) :: data[n]
  }

  lemma NamesOfCons(ms: seq<Field>)
    requires ms != []
    ensures NamesOf(ms) == {ms[0].name} + NamesOf(ms[1..])
  {
    forall n | n in NamesOf(ms) ensures n in {ms[0].name} + NamesOf(ms[1..]) {
      var k :| 0 <= k < |ms| && ms[k].name == n;
      if k > 0 {
        assert ms[1..][k - 1] == ms[k];
      }
    }
    forall n | n in NamesOf(ms[1..]) ensures n in NamesOf(ms) {
      var k :| 0 <= k < |ms| - 1 && ms[1..][k].name == n;
      assert ms[k + 1] == ms[1..][k];
    }
  }

  lemma NamesInData(ms: seq<Field>, data: map<string, Value>)
    requires MembersFit(ms, data)
    ensures NamesOf(ms) <= data.Keys
  {
    forall n | n in NamesOf(ms) ensures n in data {
      var k :| 0 <= k < |ms| && ms[k].name == n;
    }
  }

  lemma ProjectCons(ms: seq<Field>, data: map<string, Value>, read: map<string, Value>)
    requires ms != [] && NamesOf(ms) <= data.Keys
    ensures NamesOf(ms[1..]) <= data.Keys
    ensures read[ms[0].name := data[ms[0].name]] + Project(ms[1..], data) == read + Project(ms, data)
  {
    NamesOfCons(ms);
  }

  /** One step of the read_bytes loop, for a member whose run reads back as v. */
  lemma AssignStep(ms: seq<Field>, items: seq<Value>, i: nat, read: map<string, Value>, v: Value)
    requires ms != [] && AllStruct(ms)
    requires ms[0].kind.fieldCount == 1 ==> i < |items|
    requires MemberValue(ms[0], items, i) == v
    ensures AssignFrom(ms, items, i, read) == AssignFrom(ms[1..], items, i + ms[0].kind.fieldCount, read[ms[0].name := v])
  {
  }

  lemma SplitRun(items: seq<Value>, i: nat, mid: nat, end: nat, run: seq<Value>, rest: seq<Value>)
    requires mid == i + |run| && end == mid + |rest| && end <= |items|
    requires items[i..end] == run + rest
    ensures items[i..mid] == run
    ensures items[mid..end] == rest
  {
    assert items[i..mid] == items[i..end][..|run|];
    assert items[mid..end] == items[i..end][|run|..];
  }

  lemma RunsCons(ms: seq<Field>, data: map<string, Value>)
    requires ms != [] && MembersFit(ms, data)
    ensures MembersFit(ms[1..], data)
    ensures MemberItems(ms[0], data[ms[0].name]).Success?
    ensures |MemberItems(ms[0], data[ms[0].name]).value| == ms[0].kind.fieldCount
    ensures Runs(ms, data) == MemberItems(ms[0], data[ms[0].name]).value + Runs(ms[1..], data)
  {
    MembersFitTail(ms, data);
    MemberItemsFit(ms[0], data[ms[0].name]);
  }

  lemma {:induction false} AssignRuns(ms: seq<Field>, data: map<string, Value>, items: seq<Value>, i: nat, read: map<string, Value>)
    requires MembersFit(ms, data)
    requires i + |Runs(ms, data)| <= |items|
    requires items[i..i + |Runs(ms, data)|] == Runs(ms, data)
    ensures AllStruct(ms) && NamesOf(ms) <= data.Keys
    ensures AssignFrom(ms, items, i, read) == Success(read + Project(ms, data))
  {
    NamesInData(ms, data);
    if ms == [] {
      assert NamesOf(ms) == {};
      assert Project(ms, data) == map[];
      assert read + map[] == read;
    } else {
      var next := i + ms[0].kind.fieldCount;
      var read' := read[ms[0].name := data[ms[0].name]];
      AssignRunsCons(ms, data, items, i, next, read, read');
      AssignRuns(ms[1..], data, items, next, read');
    }
  }

  /** One member of the read_bytes loop: its run reads back its value, and the rest follows it. */
  lemma AssignRunsCons(ms: seq<Field>, data: map<string, Value>, items: seq<Value>, i: nat, next: nat,
                       read: map<string, Value>, read': map<string, Value>)
    requires ms != [] && MembersFit(ms, data)
    requires i + |Runs(ms, data)| <= |items|
    requires items[i..i + |Runs(ms, data)|] == Runs(ms, data)
    requires next == i + ms[0].kind.fieldCount && read' == read[ms[0].name := data[ms[0].name]]
    ensures MembersFit(ms[1..], data)
    ensures next + |Runs(ms[1..], data)| <= |items|
    ensures items[next..next + |Runs(ms[1..], data)|] == Runs(ms[1..], data)
    ensures AllStruct(ms[1..]) && NamesOf(ms[1..]) <= data.Keys ==> AllStruct(ms)
    ensures AssignFrom(ms[1..], items, next, read') == Success(read' + Project(ms[1..], data))
            ==> AssignFrom(ms, items, i, read) == Success(read + Project(ms, data))
  {
    NamesInData(ms, data);
    var f := ms[0];
    var v := data[f.name];
    RunsCons(ms, data);
    var run := MemberItems(f, v).value;
    var rest := Runs(ms[1..], data);
    assert |Runs(ms, data)| == |run| + |rest|;
    SplitRun(items, i, next, i + |Runs(ms, data)|, run, rest);
    MemberItemsRoundTrip(f, v, items, i);
    AssignStep(ms, items, i, read, v);
    ProjectCons(ms, data, read);
  }

  /**
   * read_bytes inverts write_bytes: for a prepared struct group whose members' values fit,
   * reading the written bytes back (wherever they sit in a buffer) gives each member's value
   * and consumes exactly the group's length.
   */
  lemma StructGroupRoundTrip(g0: ParsingField, g: ParsingField, data: map<string, Value>,
                             before: seq<byte>, after: seq<byte>)
    requires WellFormed(g0) && g0.leader.kind.StructKind?
    requires PrepareGroupSpec(g0) == Success(g)
    requires MembersFit(Members(g0), data)
    ensures WellFormed(g) && NamesOf(Members(g)) <= data.Keys
    ensures WriteBytesSpec(g, data).Success?
    ensures |WriteBytesSpec(g, data).value| == g.length
    ensures ReadBytesSpec(g, before + WriteBytesSpec(g, data).value + after, |before|)
         == Success((Project(Members(g), data), g.length))
  {
    var ms := Members(g0);
    var values := Runs(ms, data);
    StructGroupShape(g0, g, data, values);
    PackUnpack(g.layout, values, before, after);
    var w := Pack(g.layout, values).value;
    assert items: Unpack(g.layout, before + w + after, |before|) == Success(values);
    WholeSlice(values);
    AssignRuns(ms, data, values, 0, map[]);
    EmptyUnion(Project(ms, data));
  }

  /** A prepared struct group keeps its members, and its layout packs the members' runs of items. */
  lemma StructGroupShape(g0: ParsingField, g: ParsingField, data: map<string, Value>, values: seq<Value>)
    requires WellFormed(g0) && g0.leader.kind.StructKind?
    requires PrepareGroupSpec(g0) == Success(g)
    requires MembersFit(Members(g0), data) && values == Runs(Members(g0), data)
    ensures WellFormed(g) && g.leader.kind.StructKind?
    ensures g.layout == MemberCodes(Members(g0)) && Members(g) == Members(g0)
    ensures g.length == Size(g.layout) && g.totalFields == |values|
    ensures GatherFrom(Members(g0), data, []) == Success(values)
    ensures AllFit(g.layout, values)
  {
    var ms := Members(g0);
    GatherRuns(ms, data, []);
    assert [] + values == values;
    ParseGroupFormat(ms);
    ParseCodesLength(GroupFormat(ms));
    PrepareGroupLayout(g0);
  }

  lemma WholeSlice<T>(s: seq<T>)
    ensures s[0..|s|] == s
  {
  }

  lemma EmptyUnion<K, V>(m: map<K, V>)
    ensures map[] + m == m
  {
  }

  /** A string field reads back the string it wrote, consuming the string and its NUL. */
  lemma StringRoundTrip(f: Field, v: Value, before: seq<byte>, after: seq<byte>)
    requires f.kind.StringKind? && FieldFits(f, v)
    ensures WriteString(v).Success?
    ensures ReadString(f, before + WriteString(v).value + after, |before|)
         == Success((map[f.name := v], |WriteString(v).value|))
  {
    var data := before + v.s + [0] + after;
    assert before + WriteString(v).value + after == data;
    var end := |before| + |v.s|;
    assert data[end] == 0;
    assert forall k :: |before| <= k < end ==> data[k] == v.s[k - |before|];
    assert forall k :: |before| <= k < end ==> data[k] != 0;
    var r := NulFrom(data, |before|);
    assert r.Some? && r.value == end;
    assert data[|before|..end] == v.s;
  }
}
