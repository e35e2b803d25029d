/**
 * Packet instances (libopenttd/packets/packet.py): construction from positional and
 * keyword values, as_dict, write, and the fixed-length size of a packet class.
 */
module Packet {
  import opened Common
  import opened PyStruct
  import opened Fields
  import opened Schema
  import opened Codec

  // ---------------------------------------------------------------- construction

  /** How many positional arguments come before the first None. */
  function LeadingCount(args: seq<Value>): (n: nat)
    ensures n <= |args|
    ensures forall k :: 0 <= k < n ==> args[k] != VNone
    ensures n < |args| ==> args[n] == VNone
  {
    if args == [] || args[0] == VNone then 0
    else
      var n := 1 + LeadingCount(args[1..]);
      assert forall k :: 1 <= k < n ==> args[k] == args[1..][k - 1];
      n
  }

  /** `data[field.name] = arg` for each (sorted field, argument) pair, in order. */
  function Bind(fs: seq<Field>, args: seq<Value>): map<string, Value>
    requires |args| <= |fs|
    decreases |args|
  {
    if args == [] then map[]
    else Bind(fs, args[..|args| - 1])[fs[|args| - 1].name := args[|args| - 1]]
  }

  /**
   * Every field set, in `_meta.fields` order, to its value in `data`, else to its default; of
   * two fields with one name the later one is set last.
   */
  function Assign(fs: seq<Field>, data: map<string, Value>): map<string, Value>
    decreases |fs|
  {
    if fs == [] then map[]
    else
      var f := fs[|fs| - 1];
      Assign(fs[..|fs| - 1], data)[f.name := if f.name in data then data[f.name] else f.defaultValue]
  }

  /**
   * Packet.__init__: too many positional arguments raise IndexError; the positional
   * arguments up to the first None bind to the sorted fields (an argument with no sorted
   * field left to take it reads `.name` of None); an unknown keyword raises
   * InvalidFieldName; keywords override positional values; every declared field is then
   * set from those values or to its default.
   */
  function InitSpec(cls: PacketClass, args: seq<Value>, kwargs: map<string, Value>): Result<Instance> {
    if |args| > |cls.fields| then Failure(IndexError)
    else
      var n := LeadingCount(args);
      if n > |cls.fieldsSorted| then Failure(AttributeError)
      else if !(kwargs.Keys <= NamesOf(cls.fields)) then Failure(InvalidFieldName)
      else Success(Assign(cls.fields, Bind(cls.fieldsSorted, args[..n]) + kwargs))
  }

  /** The izip_longest loop of __init__: bind arguments to sorted fields until the first None. */
  method BindPositional(sorted: seq<Field>, args: seq<Value>) returns (r: Result<map<string, Value>>)
    ensures LeadingCount(args) > |sorted| ==> r == Failure(AttributeError)
    ensures LeadingCount(args) <= |sorted| ==> r == Success(Bind(sorted, args[..LeadingCount(args)]))
  {
    var data: map<string, Value> := map[];
    var longest := if |sorted| < |args| then |args| else |sorted|;
    var i := 0;
    while i < longest
      invariant i <= LeadingCount(args) && i <= |sorted|
      invariant data == Bind(sorted, args[..i])
    {
      var arg := if i < |args| then args[i] else VNone;
      if arg == VNone {
        break;
      }
      if i >= |sorted| {
        return Failure(AttributeError);
      }
      assert args[..i + 1][..i] == args[..i];
      data := data[sorted[i].name := arg];
      i := i + 1;
    }
    return Success(data);
  }

  /** The keyword check of __init__: every keyword must be a declared name. */
  method CheckKeywords(kwargs: map<string, Value>, allNames: set<string>) returns (ok: bool)
    ensures ok <==> kwargs.Keys <= allNames
  {
    var keys := kwargs.Keys;
    while keys != {}
      invariant keys <= kwargs.Keys
      invariant forall k :: k in kwargs.Keys && k !in keys ==> k in allNames
      decreases |keys|
    {
      var k :| k in keys;
      if k !in allNames {
        return false;
      }
      keys := keys - {k};
    }
    return true;
  }

  /** The setattr loop of __init__. */
  method SetAttributes(fields: seq<Field>, data: map<string, Value>) returns (inst: Instance)
    ensures inst == Assign(fields, data)
  {
    inst := map[];
    for j := 0 to |fields|
      invariant inst == Assign(fields[..j], data)
    {
      var field := fields[j];
      assert fields[..j + 1][..j] == fields[..j];
      var value := if field.name in data then data[field.name] else field.defaultValue;
      inst := inst[field.name := value];
    }
    assert fields[..|fields|] == fields;
  }

  method Init(cls: PacketClass, args: seq<Value>, kwargs: map<string, Value>) returns (r: Result<Instance>)
    ensures r == InitSpec(cls, args, kwargs)
  {
    var allNames := NamesOf(cls.fields);
    if |args| > |cls.fields| {
      return Failure(IndexError);
    }
    var data := BindPositional(cls.fieldsSorted, args);
    if data.Failure? {
      return Failure(data.error);
    }
    var ok := CheckKeywords(kwargs, allNames);
    if !ok {
      return Failure(InvalidFieldName);
    }
    var inst := SetAttributes(cls.fields, data.value + kwargs);
    return Success(inst);
  }

  /** Pairing stops at the last argument: a name is bound by the last sorted field carrying it. */
  lemma BindValue(fs: seq<Field>, args: seq<Value>, n: string)
    requires |args| <= |fs|
    ensures n in Bind(fs, args) <==> exists k :: 0 <= k < |args| && fs[k].name == n
    ensures n in Bind(fs, args) ==> exists k :: 0 <= k < |args| && fs[k].name == n && Bind(fs, args)[n] == args[k]
                                                && forall j :: k < j < |args| ==> fs[j].name != n
  {
    BindDomain(fs, args, n);
    if n in Bind(fs, args) {
      var k := BindWitness(fs, args, n);
    }
  }

  lemma {:induction false} BindDomain(fs: seq<Field>, args: seq<Value>, n: string)
    requires |args| <= |fs|
    ensures n in Bind(fs, args) <==> exists k :: 0 <= k < |args| && fs[k].name == n
    decreases |args|
  {
    if args != [] {
      var m := |args| - 1;
      BindDomain(fs, args[..m], n);
      if n in Bind(fs, args) && fs[m].name != n {
        var k :| 0 <= k < m && fs[k].name == n;
      }
    }
  }

  /** The argument a bound name holds: that of the last field carrying the name. */
  lemma {:induction false} BindWitness(fs: seq<Field>, args: seq<Value>, n: string) returns (k: nat)
    requires |args| <= |fs| && n in Bind(fs, args)
    ensures k < |args| && fs[k].name == n && Bind(fs, args)[n] == args[k]
    ensures forall j :: k < j < |args| ==> fs[j].name != n
    decreases |args|
  {
    var m := |args| - 1;
    if fs[m].name == n {
      k := m;
    } else {
      k := BindWitness(fs, args[..m], n);
      assert args[..m][k] == args[k];
    }
  }

  /** Each declared name ends up set: from the data when it has the name, else to the last such field's default. */
  lemma {:induction false} AssignValue(fs: seq<Field>, data: map<string, Value>, n: string)
    ensures n in Assign(fs, data) <==> n in NamesOf(fs)
    ensures n in NamesOf(fs) && n in data ==> Assign(fs, data)[n] == data[n]
    ensures n in NamesOf(fs) && n !in data
            ==> exists k :: 0 <= k < |fs| && fs[k].name == n && Assign(fs, data)[n] == fs[k].defaultValue
                            && forall j :: k < j < |fs| ==> fs[j].name != n
    decreases |fs|
  {
    if fs != [] {
      var m := |fs| - 1;
      var init := fs[..m];
      AssignValue(init, data, n);
      assert forall k :: 0 <= k < m ==> init[k] == fs[k];
      assert NamesOf(fs) == NamesOf(init) + {fs[m].name} by {
        forall x | x in NamesOf(fs) ensures x in NamesOf(init) + {fs[m].name} {
          var k :| 0 <= k < |fs| && fs[k].name == x;
          if k < m {
            assert init[k].name == x;
          }
        }
      }
    }
  }

  /**
   * What a packet holds after __init__: exactly the declared names; a keyword's value
   * when given; else, up to the first None, the positional argument of the last sorted
   * field of that name; else the default of the last field of that name.
   */
  lemma InitValues(cls: PacketClass, args: seq<Value>, kwargs: map<string, Value>, n: string)
    requires InitSpec(cls, args, kwargs).Success?
    ensures var inst := InitSpec(cls, args, kwargs).value;
            var count := LeadingCount(args);
            (n in inst <==> n in NamesOf(cls.fields))
            && (n in NamesOf(cls.fields) && n in kwargs ==> inst[n] == kwargs[n])
            && (n in NamesOf(cls.fields) && n !in kwargs && (exists k :: 0 <= k < count && cls.fieldsSorted[k].name == n)
                ==> exists k :: 0 <= k < count && cls.fieldsSorted[k].name == n && inst[n] == args[k]
                                && forall j :: k < j < count ==> cls.fieldsSorted[j].name != n)
            && (n in NamesOf(cls.fields) && n !in kwargs && !(exists k :: 0 <= k < count && cls.fieldsSorted[k].name == n)
                ==> exists k :: 0 <= k < |cls.fields| && cls.fields[k].name == n && inst[n] == cls.fields[k].defaultValue
                                && forall j :: k < j < |cls.fields| ==> cls.fields[j].name != n)
  {
    var count := LeadingCount(args);
    var positional := args[..count];
    var bound := Bind(cls.fieldsSorted, positional);
    var data := bound + kwargs;
    AssignValue(cls.fields, data, n);
    BindValue(cls.fieldsSorted, positional, n);
    assert forall k :: 0 <= k < count ==> positional[k] == args[k];
  }

  /** Only the three checks of __init__ fail it, each with its own exception. */
  lemma InitErrors(cls: PacketClass, args: seq<Value>, kwargs: map<string, Value>)
    ensures InitSpec(cls, args, kwargs) == Failure(IndexError) <==> |args| > |cls.fields|
    ensures InitSpec(cls, args, kwargs) == Failure(AttributeError)
            <==> |args| <= |cls.fields| && LeadingCount(args) > |cls.fieldsSorted|
    ensures InitSpec(cls, args, kwargs) == Failure(InvalidFieldName)
            <==> |args| <= |cls.fields| && LeadingCount(args) <= |cls.fieldsSorted|
                 && exists k :: k in kwargs && k !in NamesOf(cls.fields)
  {
  }

  /** A prepared class sorts all its fields, so __init__ never runs out of sorted fields. */
  lemma PreparedInitBinds(cls: PacketClass, args: seq<Value>, kwargs: map<string, Value>)
    requires multiset(cls.fieldsSorted) == multiset(cls.fields)
    ensures InitSpec(cls, args, kwargs) != Failure(AttributeError)
  {
    assert |multiset(cls.fieldsSorted)| == |multiset(cls.fields)|;
  }

  // ---------------------------------------------------------------- as_dict and write

  /** as_dict: each declared field's attribute, or its default when the attribute is missing. */
  function AsDict(cls: PacketClass, inst: Instance): (d: map<string, Value>)
    ensures d.Keys == NamesOf(cls.fields)
  {
    var d := Assign(cls.fields, inst);
    assert forall n :: n in d <==> n in NamesOf(cls.fields) by {
      forall n ensures n in d <==> n in NamesOf(cls.fields) {
        AssignValue(cls.fields, inst, n);
      }
    }
    d
  }

  /** as_dict of a freshly constructed packet gives back exactly its attributes. */
  lemma AsDictInit(cls: PacketClass, args: seq<Value>, kwargs: map<string, Value>)
    requires InitSpec(cls, args, kwargs).Success?
    ensures AsDict(cls, InitSpec(cls, args, kwargs).value) == InitSpec(cls, args, kwargs).value
  {
    var inst := InitSpec(cls, args, kwargs).value;
    var d := AsDict(cls, inst);
    forall n | n in d ensures n in inst && d[n] == inst[n] {
      InitValues(cls, args, kwargs, n);
      AssignValue(cls.fields, inst, n);
    }
    forall n | n in inst ensures n in d {
      InitValues(cls, args, kwargs, n);
    }
  }

  /** Packet.write: to_data with the caller's optional extra dictionary (its 'version'). */
  function Write(cls: PacketClass, inst: Instance, extra: Option<map<string, Value>>): Result<seq<byte>>
    requires AllWellFormed(cls.parsingFields)
  {
    ToDataSpec(cls, inst, extra)
  }

  // ---------------------------------------------------------------- packet size

  /** A field's byte size: the size of its struct codes; a string field has none. */
  function FieldSize(f: Field): Option<nat> {
    if f.kind.StructKind? && ParseCodes(f.kind.structType).Success? && ParseCodes(f.kind.structType).value != []
    then Some(Size(ParseCodes(f.kind.structType).value))
    else None
  }

  /** The summed sizes of the fixed-length fields. */
  function SizeSum(fs: seq<Field>): nat {
    if fs == [] then 0 else FieldSize(fs[0]).GetOr(0) + SizeSum(fs[1..])
  }

  predicate IsFixedLength(cls: PacketClass) {
    forall k :: 0 <= k < |cls.fields| ==> FieldSize(cls.fields[k]).Some?
  }

  /** get_packet_size: the summed field sizes of a fixed-length class, 0 for any other. */
  function GetPacketSize(cls: PacketClass): nat {
    if IsFixedLength(cls) then SizeSum(cls.fields) else 0
  }

  lemma {:induction false} SizeSumAppend(a: seq<Field>, b: seq<Field>)
    ensures SizeSum(a + b) == SizeSum(a) + SizeSum(b)
  {
    if a != [] {
      assert (a + b)[0] == a[0] && (a + b)[1..] == a[1..] + b;
      SizeSumAppend(a[1..], b);
    } else {
      assert a + b == b;
    }
  }

  lemma {:induction false} SizeSumInsert(f: Field, s: seq<Field>)
    ensures SizeSum(InsertByOrdering(f, s)) == FieldSize(f).GetOr(0) + SizeSum(s)
  {
    if s != [] && f.ordering > s[0].ordering {
      SizeSumInsert(f, s[1..]);
      assert InsertByOrdering(f, s)[1..] == InsertByOrdering(f, s[1..]);
    }
  }

  /** Sorting does not change the summed size. */
  lemma {:induction false} SizeSumSort(fs: seq<Field>)
    ensures SizeSum(SortByOrdering(fs)) == SizeSum(fs)
  {
    if fs != [] {
      SizeSumSort(fs[1..]);
      SizeSumInsert(fs[0], SortByOrdering(fs[1..]));
    }
  }

  /** The codes of fixed-length members take up the summed member sizes. */
  lemma {:induction false} MemberCodesSize(ms: seq<Field>)
    requires forall k :: 0 <= k < |ms| ==> FieldSize(ms[k]).Some?
    ensures AllStruct(ms) && forall k :: 0 <= k < |ms| ==> ParseCodes(ms[k].kind.structType).Success?
    ensures Size(MemberCodes(ms)) == SizeSum(ms)
  {
    if ms != [] {
      MemberCodesSize(ms[1..]);
      SizeAppend(ParseCodes(ms[0].kind.structType).value, MemberCodes(ms[1..]));
    }
  }

  /** A prepared group of fixed-length members is as long as their summed sizes. */
  lemma GroupLength(g: ParsingField)
    requires IsPrepared(g)
    requires forall k :: 0 <= k < |Members(g)| ==> FieldSize(Members(g)[k]).Some?
    ensures g.leader.kind.StructKind? && g.length == Size(g.layout) == SizeSum(Members(g))
  {
    MemberCodesSize(Members(g));
    assert MemberCodes(Members(g)) != [];
    PrepareGroupLayout(g);
  }

  /** Writing unskipped groups of fixed-length fields emits their summed sizes. */
  lemma {:induction false} EncodeLength(gs: seq<ParsingField>, data: map<string, Value>, version: Value)
    requires forall j :: 0 <= j < |gs| ==> IsPrepared(gs[j]) && !Skipped(gs[j], version)
    requires forall f :: f in Flatten(gs) ==> FieldSize(f).Some?
    requires AllWellFormed(gs)
    requires Encode(gs, data, Some(version)).Success?
    ensures |Encode(gs, data, Some(version)).value| == SizeSum(Flatten(gs))
  {
    if gs != [] {
      var g := gs[0];
      assert Flatten(gs) == Members(g) + Flatten(gs[1..]);
      forall k | 0 <= k < |Members(g)| ensures FieldSize(Members(g)[k]).Some? {
        assert Members(g)[k] in Flatten(gs);
      }
      GroupLength(g);
      var values := GatherFrom(Members(g), data, []).value;
      assert WriteBytesSpec(g, data) == Pack(g.layout, values);
      EncodeLength(gs[1..], data, version);
      SizeSumAppend(Members(g), Flatten(gs[1..]));
    }
  }

  /**
   * A fixed-length packet written with every field active is exactly get_packet_size
   * bytes long.
   */
  lemma WriteSize(cls: PacketClass, inst: Instance, extra: Option<map<string, Value>>)
    requires PreparedFrom(cls)
    requires IsFixedLength(cls)
    requires forall j :: 0 <= j < |cls.parsingFields| ==>
               !Skipped(cls.parsingFields[j], ActiveVersion(extra.GetOr(map[]), DefaultVersionOf(cls)))
    ensures AllWellFormed(cls.parsingFields)
    ensures Write(cls, inst, extra).Success? ==> |Write(cls, inst, extra).value| == GetPacketSize(cls)
  {
    PrepareSchemaShape(SameVersionStruct, cls.fields);
    assert cls.fieldsSorted == SortByOrdering(cls.fields);
    var version := ActiveVersion(extra.GetOr(map[]), DefaultVersionOf(cls));
    var data := DataOf(cls.fields, inst);
    if Write(cls, inst, extra).Success? {
      assert Encode(cls.parsingFields, data, Some(version)) == Write(cls, inst, extra);
      EncodeFixedLength(cls.parsingFields, cls.fields, data, version);
    }
  }

  /** Encoding prepared, ungated parsing fields of fixed-length fields writes their summed sizes. */
  lemma EncodeFixedLength(gs: seq<ParsingField>, fields: seq<Field>, data: map<string, Value>, version: Value)
    requires Flatten(gs) == SortByOrdering(fields)
    requires forall j :: 0 <= j < |gs| ==> IsPrepared(gs[j]) && !Skipped(gs[j], version)
    requires forall k :: 0 <= k < |fields| ==> FieldSize(fields[k]).Some?
    requires AllWellFormed(gs) && Encode(gs, data, Some(version)).Success?
    ensures |Encode(gs, data, Some(version)).value| == SizeSum(fields)
  {
    forall f | f in Flatten(gs) ensures FieldSize(f).Some? {
      assert f in multiset(fields);
    }
    EncodeLength(gs, data, version);
    SizeSumSort(fields);
  }
}
