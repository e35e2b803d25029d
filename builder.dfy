/**
 * Building a packet class (libopenttd/packets/base.py, PacketBase.__new__): the pid and
 * Meta a class takes from its declaration or its first parent, the options it ends up
 * with, the fields it inherits, and the abstract / virtual / override dispatch deciding
 * whether the class is prepared and whether it is registered.
 */
module Builder {
  import opened Common
  import opened PyStruct
  import opened Fields
  import opened Schema
  import opened Codec
  import opened Registry

  /**
   * What a class statement declares: its name, and optionally a pid, a Meta class and fields.
   * `fields` is in the order of the class dictionary's items (`attrs.items()`, base.py:184-185),
   * which Python 2 does not tie to the order of the statements in the class body.
   */
  datatype Declaration = Declaration(name: string, pid: Option<int>, meta: Option<Options>, fields: seq<Field>)

  /** `getattr(attr_meta, name, False)` taken as a truth value. */
  predicate Flag(meta: Option<Options>, n: OptName) {
    meta.Some? && n in meta.value && meta.value[n] != 0
  }

  /** `getattr(attr_meta, 'force_virtual', getattr(base_meta, 'force_virtual', False))`. */
  predicate ForceVirtualOf(decl: Declaration, baseMeta: Options) {
    if decl.meta.Some? && ForceVirtual in decl.meta.value then decl.meta.value[ForceVirtual] != 0
    else ForceVirtual in baseMeta && baseMeta[ForceVirtual] != 0
  }

  // ---------------------------------------------------------------- field inheritance

  /** The fields of every parent, parent by parent, each in its `_meta.fields` order. */
  function ParentFields(parents: seq<PacketClass>): seq<Field>
    decreases |parents|
  {
    if parents == [] then [] else ParentFields(parents[..|parents| - 1]) + parents[|parents| - 1].fields
  }

  /** The fields whose names are not in `names`, in order. */
  function WithoutNames(fs: seq<Field>, names: set<string>): seq<Field>
    decreases |fs|
  {
    if fs == [] then []
    else if fs[|fs| - 1].name in names then WithoutNames(fs[..|fs| - 1], names)
    else WithoutNames(fs[..|fs| - 1], names) + [fs[|fs| - 1]]
  }

  lemma ParentFieldsSnoc(parents: seq<PacketClass>, p: nat)
    requires p < |parents|
    ensures ParentFields(parents[..p + 1]) == ParentFields(parents[..p]) + parents[p].fields
  {
    assert parents[..p + 1][..p] == parents[..p];
  }

  lemma WithoutNamesSnoc(fs: seq<Field>, f: Field, names: set<string>)
    ensures WithoutNames(fs + [f], names) == if f.name in names then WithoutNames(fs, names) else WithoutNames(fs, names) + [f]
  {
    assert (fs + [f])[..|fs|] == fs;
  }

  lemma {:induction false} WithoutNamesAppend(a: seq<Field>, b: seq<Field>, names: set<string>)
    ensures WithoutNames(a + b, names) == WithoutNames(a, names) + WithoutNames(b, names)
    decreases |b|
  {
    if b == [] {
      assert a + b == a;
    } else {
      var init, last := b[..|b| - 1], b[|b| - 1];
      assert a + b == (a + init) + [last];
      assert b == init + [last];
      WithoutNamesSnoc(a + init, last, names);
      WithoutNamesSnoc(init, last, names);
      WithoutNamesAppend(a, init, names);
    }
  }

  /** A parent field is any field of any parent. */
  lemma {:induction false} ParentFieldsMembers(parents: seq<PacketClass>, f: Field)
    ensures f in ParentFields(parents) <==> exists p :: 0 <= p < |parents| && f in parents[p].fields
    decreases |parents|
  {
    if parents != [] {
      var init := parents[..|parents| - 1];
      ParentFieldsMembers(init, f);
      assert forall p :: 0 <= p < |init| ==> init[p] == parents[p];
    }
  }

  /** Filtering keeps exactly the fields whose names are not excluded. */
  lemma {:induction false} WithoutNamesMembers(fs: seq<Field>, names: set<string>, f: Field)
    ensures f in WithoutNames(fs, names) <==> f in fs && f.name !in names
    decreases |fs|
  {
    if fs != [] {
      WithoutNamesMembers(fs[..|fs| - 1], names, f);
      assert fs == fs[..|fs| - 1] + [fs[|fs| - 1]];
    }
  }

  /** The class's own fields, then the parent fields whose names it does not declare itself. */
  function InheritFields(own: seq<Field>, parents: seq<PacketClass>): seq<Field> {
    own + WithoutNames(ParentFields(parents), NamesOf(own))
  }

  /** One parent's turn in the field loop of __new__: append its fields whose names are not declared. */
  method AppendUndeclared(fields: seq<Field>, parentFields: seq<Field>, names: set<string>) returns (r: seq<Field>)
    ensures r == fields + WithoutNames(parentFields, names)
  {
    r := fields;
    assert parentFields[..0] == [];
    assert fields + [] == fields;
    for k := 0 to |parentFields|
      invariant r == fields + WithoutNames(parentFields[..k], names)
    {
      var field := parentFields[k];
      assert parentFields[..k + 1] == parentFields[..k] + [field];
      WithoutNamesSnoc(parentFields[..k], field, names);
      if field.name !in names {
        r := r + [field];
      }
    }
    assert parentFields[..|parentFields|] == parentFields;
  }

  /** The field loop of __new__: the own fields, then each parent's fields whose names are not declared. */
  method CollectFields(own: seq<Field>, parents: seq<PacketClass>) returns (fields: seq<Field>)
    ensures fields == InheritFields(own, parents)
  {
    fields := own;
    var fieldNames := NamesOf(own);
    assert parents[..0] == [];
    assert own + [] == own;
    for p := 0 to |parents|
      invariant fields == own + WithoutNames(ParentFields(parents[..p]), fieldNames)
    {
      fields := AppendUndeclared(fields, parents[p].fields, fieldNames);
      ParentFieldsSnoc(parents, p);
      WithoutNamesAppend(ParentFields(parents[..p]), parents[p].fields, fieldNames);
    }
    assert parents[..|parents|] == parents;
  }

  // ---------------------------------------------------------------- the class statement

  /**
   * The Meta a prepared class leaves for its subclasses: its own Meta, with override and
   * virtual reset, when it set either of them; otherwise the one it inherited.
   */
  function ExposedMeta(attrMeta: Option<Options>, inherited: Option<Options>): Option<Options> {
    if Flag(attrMeta, Override) || Flag(attrMeta, Virtual) then
      var m := if Flag(attrMeta, Override) then attrMeta.value[Override := 0] else attrMeta.value;
      Some(if Flag(attrMeta, Virtual) then m[Virtual := 0] else m)
    else inherited
  }

  /**
   * PacketBase.__new__. A class with no packet parent is left alone (None). Otherwise the
   * class takes its pid and Meta from the declaration, falling back on its first parent;
   * an abstract class comes back unprepared with its Meta's abstract flag reset; any other
   * class is prepared with the version-respecting merge rule.
   */
  function DefineSpec(decl: Declaration, parents: seq<PacketClass>): Result<Option<PacketClass>> {
    if parents == [] then Success(None)
    else
      var base := parents[0];
      var pid := decl.pid.GetOr(base.pid);
      var meta := if decl.meta.Some? then decl.meta else base.meta;
      var options := ContributeSpec(Some(base.options), meta);
      var fields := InheritFields(decl.fields, parents);
      if Flag(decl.meta, Abstract) then
        Success(Some(PacketClass(decl.name, pid, options, Some(decl.meta.value[Abstract := 0]), fields, [], [], false)))
      else
        var schema :- PrepareSchemaSpec(SameVersionStruct, fields);
        Success(Some(PacketClass(decl.name, pid, options, ExposedMeta(decl.meta, base.meta), fields,
                                 schema.0, schema.1, true)))
  }

  /** Whether __new__ ends by registering the class: neither abstract, nor virtual, nor force-virtual. */
  predicate Registers(decl: Declaration, parents: seq<PacketClass>) {
    parents != [] && !Flag(decl.meta, Abstract) && !Flag(decl.meta, Virtual) && !ForceVirtualOf(decl, parents[0].options)
  }

  /** The registry tables once the class statement has run. */
  function RegistryAfter(all: Tables, decl: Declaration, parents: seq<PacketClass>): Tables {
    var r := DefineSpec(decl, parents);
    if Registers(decl, parents) && r.Success? && r.value.Some? then RegisterSpec(all, r.value.value) else all
  }

  method DefineClass(registry: PacketRegistry, decl: Declaration, parents: seq<PacketClass>)
    returns (r: Result<Option<PacketClass>>)
    modifies registry
    ensures r == DefineSpec(decl, parents)
    ensures registry.allPackets == RegistryAfter(old(registry.allPackets), decl, parents)
  {
    ghost var start := registry.allPackets;
    if parents == [] {
      RegistryKept(start, decl, parents);
      return Success(None);
    }
    var base := parents[0];
    var pid := if decl.pid.Some? then decl.pid.value else base.pid;
    var meta := if decl.meta.Some? then decl.meta else base.meta;
    var options := ContributeOptions(Some(base.options), meta);

    var fields := CollectFields(decl.fields, parents);

    if Flag(decl.meta, Abstract) {
      RegistryKept(start, decl, parents);
      // abstract classes are returned as they are: not prepared, not registered
      return Success(Some(PacketClass(decl.name, pid, options, Some(decl.meta.value[Abstract := 0]), fields, [], [], false)));
    }
    var schema := PrepareSchema(SameVersionStruct, fields);
    if schema.Failure? {
      RegistryKept(start, decl, parents);
      return Failure(schema.error);
    }
    DefinePrepared(decl, parents, schema.value);
    var exposed := base.meta;
    if Flag(decl.meta, Override) {
      exposed := Some(decl.meta.value[Override := 0]);
    }
    if Flag(decl.meta, Virtual) || ForceVirtualOf(decl, base.options) {
      if Flag(decl.meta, Virtual) {
        var m := if Flag(decl.meta, Override) then decl.meta.value[Override := 0] else decl.meta.value;
        exposed := Some(m[Virtual := 0]);
      }
      assert exposed == ExposedMeta(decl.meta, base.meta);
      RegistryKept(start, decl, parents);
      // virtual classes are prepared but not registered
      return Success(Some(PacketClass(decl.name, pid, options, exposed, fields, schema.value.0, schema.value.1, true)));
    }
    assert exposed == ExposedMeta(decl.meta, base.meta);
    var cls := PacketClass(decl.name, pid, options, exposed, fields, schema.value.0, schema.value.1, true);
    RegistryAdded(start, decl, parents, cls);
    registry.RegisterPacket(cls);
    return Success(Some(cls));
  }

  /** The class a declaration that is not abstract defines, once its schema is prepared. */
  lemma DefinePrepared(decl: Declaration, parents: seq<PacketClass>, schema: (seq<Field>, seq<ParsingField>))
    requires parents != [] && !Flag(decl.meta, Abstract)
    requires PrepareSchemaSpec(SameVersionStruct, InheritFields(decl.fields, parents)) == Success(schema)
    ensures DefineSpec(decl, parents)
         == Success(Some(PacketClass(decl.name, decl.pid.GetOr(parents[0].pid),
                                     ContributeSpec(Some(parents[0].options), if decl.meta.Some? then decl.meta else parents[0].meta),
                                     ExposedMeta(decl.meta, parents[0].meta), InheritFields(decl.fields, parents),
                                     schema.0, schema.1, true)))
  {
  }

  /** A class statement that does not register leaves the registry as it was. */
  lemma RegistryKept(all: Tables, decl: Declaration, parents: seq<PacketClass>)
    requires !Registers(decl, parents) || DefineSpec(decl, parents).Failure?
    ensures RegistryAfter(all, decl, parents) == all
  {
  }

  /** A class statement that registers adds the class it defines. */
  lemma RegistryAdded(all: Tables, decl: Declaration, parents: seq<PacketClass>, cls: PacketClass)
    requires Registers(decl, parents) && DefineSpec(decl, parents) == Success(Some(cls))
    ensures RegistryAfter(all, decl, parents) == RegisterSpec(all, cls)
  {
    assert DefineSpec(decl, parents).value.value == cls;
  }

  // ---------------------------------------------------------------- properties

  /** get_field_by_name over two lists: the first list wins. */
  lemma {:induction false} FieldByNameAppend(a: seq<Field>, b: seq<Field>, n: string)
    ensures FieldByName(a + b, n) == if FieldByName(a, n).Some? then FieldByName(a, n) else FieldByName(b, n)
  {
    if a != [] {
      assert (a + b)[0] == a[0] && (a + b)[1..] == a[1..] + b;
      FieldByNameAppend(a[1..], b, n);
    } else {
      assert a + b == b;
    }
  }

  /** Dropping other names does not change which field a name finds. */
  lemma {:induction false} FieldByNameWithout(fs: seq<Field>, names: set<string>, n: string)
    requires n !in names
    ensures FieldByName(WithoutNames(fs, names), n) == FieldByName(fs, n)
    decreases |fs|
  {
    if fs != [] {
      var init, last := fs[..|fs| - 1], fs[|fs| - 1];
      assert fs == init + [last];
      FieldByNameWithout(init, names, n);
      FieldByNameAppend(init, [last], n);
      if last.name !in names {
        FieldByNameAppend(WithoutNames(init, names), [last], n);
      } else {
        assert FieldByName([last], n).None?;
      }
    }
  }

  lemma FieldByNameNames(fs: seq<Field>, n: string)
    ensures FieldByName(fs, n).Some? <==> n in NamesOf(fs)
  {
    if n in NamesOf(fs) {
      var k :| 0 <= k < |fs| && fs[k].name == n;
    }
  }

  /**
   * Field inheritance: a name the class declares finds the class's own field; any other
   * name finds the first parent field of that name, parents taken in order. A field of the
   * class is one it declares, or a parent field whose name it does not declare.
   */
  lemma FieldInheritance(decl: Declaration, parents: seq<PacketClass>, n: string)
    requires DefineSpec(decl, parents).Success? && DefineSpec(decl, parents).value.Some?
    ensures var cls := DefineSpec(decl, parents).value.value;
            FieldByName(cls.fields, n)
            == if n in NamesOf(decl.fields) then FieldByName(decl.fields, n) else FieldByName(ParentFields(parents), n)
    ensures var cls := DefineSpec(decl, parents).value.value;
            forall f :: f in cls.fields <==> f in decl.fields || ((exists p :: 0 <= p < |parents| && f in parents[p].fields)
                                                                  && f.name !in NamesOf(decl.fields))
  {
    var cls := DefineSpec(decl, parents).value.value;
    DefinedFields(decl, parents);
    InheritedLookup(decl.fields, parents, cls.fields, n);
  }

  lemma DefinedFields(decl: Declaration, parents: seq<PacketClass>)
    requires DefineSpec(decl, parents).Success? && DefineSpec(decl, parents).value.Some?
    ensures DefineSpec(decl, parents).value.value.fields
            == decl.fields + WithoutNames(ParentFields(parents), NamesOf(decl.fields))
  {
  }

  /** The fields a class collects: its own, then the parents' fields whose names it does not declare. */
  lemma InheritedLookup(own: seq<Field>, parents: seq<PacketClass>, fields: seq<Field>, n: string)
    requires fields == own + WithoutNames(ParentFields(parents), NamesOf(own))
    ensures FieldByName(fields, n)
            == if n in NamesOf(own) then FieldByName(own, n) else FieldByName(ParentFields(parents), n)
    ensures forall f :: f in fields <==> f in own || ((exists p :: 0 <= p < |parents| && f in parents[p].fields)
                                                      && f.name !in NamesOf(own))
  {
    var inherited := WithoutNames(ParentFields(parents), NamesOf(own));
    FieldByNameAppend(own, inherited, n);
    FieldByNameNames(own, n);
    if n !in NamesOf(own) {
      FieldByNameWithout(ParentFields(parents), NamesOf(own), n);
    }
    forall f ensures f in fields <==> f in own || ((exists p :: 0 <= p < |parents| && f in parents[p].fields)
                                                   && f.name !in NamesOf(own)) {
      WithoutNamesMembers(ParentFields(parents), NamesOf(own), f);
      ParentFieldsMembers(parents, f);
    }
  }

  /**
   * Option inheritance: an option the effective Meta sets wins; otherwise an inherited
   * option (protocol, direction, force_virtual, default_version) comes from the first
   * parent's options; otherwise the PacketOptions default applies. The pid is the
   * declared one, else the first parent's.
   */
  lemma OptionInheritance(decl: Declaration, parents: seq<PacketClass>, n: OptName)
    requires DefineSpec(decl, parents).Success? && DefineSpec(decl, parents).value.Some?
    ensures var cls := DefineSpec(decl, parents).value.value;
            var meta := if decl.meta.Some? then decl.meta else parents[0].meta;
            cls.pid == decl.pid.GetOr(parents[0].pid)
            && (meta.Some? && n in meta.value ==> n in cls.options && cls.options[n] == meta.value[n])
            && (!(meta.Some? && n in meta.value) && n in InheritedNames && n in parents[0].options
                ==> n in cls.options && cls.options[n] == parents[0].options[n])
            && (!(meta.Some? && n in meta.value) && !(n in InheritedNames && n in parents[0].options)
                ==> (n in cls.options <==> n in InitialOptions)
                    && (n in InitialOptions ==> cls.options[n] == InitialOptions[n]))
  {
    var meta := if decl.meta.Some? then decl.meta else parents[0].meta;
    ContributePrecedence(Some(parents[0].options), meta, n);
  }

  /**
   * The dispatch: no packet parent leaves the class alone; an abstract class is neither
   * prepared nor registered and exposes its Meta with abstract reset; any other class is
   * prepared (or the preparation's error is raised); a virtual or force-virtual class is
   * not registered, and every other prepared class is registered.
   */
  lemma Dispatch(all: Tables, decl: Declaration, parents: seq<PacketClass>)
    ensures parents == [] ==> DefineSpec(decl, parents) == Success(None) && RegistryAfter(all, decl, parents) == all
    ensures parents != [] && Flag(decl.meta, Abstract)
            ==> DefineSpec(decl, parents).Success? && DefineSpec(decl, parents).value.Some?
                && !DefineSpec(decl, parents).value.value.prepared
                && DefineSpec(decl, parents).value.value.parsingFields == []
                && DefineSpec(decl, parents).value.value.meta == Some(decl.meta.value[Abstract := 0])
                && RegistryAfter(all, decl, parents) == all
    ensures parents != [] && !Flag(decl.meta, Abstract)
            ==> (DefineSpec(decl, parents).Success?
                 <==> PrepareSchemaSpec(SameVersionStruct, InheritFields(decl.fields, parents)).Success?)
    ensures parents != [] && !Flag(decl.meta, Abstract) && DefineSpec(decl, parents).Success?
            ==> DefineSpec(decl, parents).value.Some? && DefineSpec(decl, parents).value.value.prepared
                && RegistryAfter(all, decl, parents)
                   == if Flag(decl.meta, Virtual) || ForceVirtualOf(decl, parents[0].options) then all
                      else RegisterSpec(all, DefineSpec(decl, parents).value.value)
  {
  }

  /**
   * A prepared class is ready for the codec: its sorted fields are a permutation of its
   * fields in ordering order, its parsing fields list exactly the sorted fields, and each
   * of them is prepared.
   */
  lemma BuiltClassReady(decl: Declaration, parents: seq<PacketClass>)
    requires DefineSpec(decl, parents).Success? && DefineSpec(decl, parents).value.Some?
    requires DefineSpec(decl, parents).value.value.prepared
    ensures var cls := DefineSpec(decl, parents).value.value;
            PreparedFrom(cls)
            && SortedByOrdering(cls.fieldsSorted) && multiset(cls.fieldsSorted) == multiset(cls.fields)
            && Flatten(cls.parsingFields) == cls.fieldsSorted
            && MergedBy(SameVersionStruct, cls.parsingFields)
            && (forall j :: 0 <= j < |cls.parsingFields| ==> IsPrepared(cls.parsingFields[j]))
            && (forall f :: f in Flatten(cls.parsingFields) ==> f in cls.fields)
  {
    var cls := DefineSpec(decl, parents).value.value;
    assert !Flag(decl.meta, Abstract);
    PrepareSchemaShape(SameVersionStruct, cls.fields);
    assert (cls.fieldsSorted, cls.parsingFields) == PrepareSchemaSpec(SameVersionStruct, cls.fields).value;
    forall f | f in Flatten(cls.parsingFields) ensures f in cls.fields {
      assert f in multiset(cls.fieldsSorted);
    }
  }

  /**
   * The end-to-end round trip for a class built by a class statement: writing an instance
   * whose values fit and reading the bytes back gives every field read under the writer's
   * version, and None for the fields that version skips.
   */
  lemma BuiltClassRoundTrip(decl: Declaration, parents: seq<PacketClass>, inst: Instance,
                            encodeExtra: Option<map<string, Value>>, decodeExtra: Option<map<string, Value>>)
    requires DefineSpec(decl, parents).Success? && DefineSpec(decl, parents).value.Some?
    requires DefineSpec(decl, parents).value.value.prepared
    requires InstanceFits(DefineSpec(decl, parents).value.value.fields, inst)
    requires var cls := DefineSpec(decl, parents).value.value;
             VersionConsistent(cls.parsingFields, VersionField(cls.fields),
                               ActiveVersion(decodeExtra.GetOr(map[]), DefaultVersionOf(cls)),
                               ActiveVersion(encodeExtra.GetOr(map[]), DefaultVersionOf(cls)),
                               DataOf(cls.fields, inst))
    ensures var cls := DefineSpec(decl, parents).value.value;
            AllWellFormed(cls.parsingFields)
            && ToDataSpec(cls, inst, encodeExtra).Success?
            && var version := ActiveVersion(encodeExtra.GetOr(map[]), DefaultVersionOf(cls));
               var decoded := FromDataSpec(cls, ToDataSpec(cls, inst, encodeExtra).value, 0, decodeExtra);
               decoded.Success?
               && decoded.value.0 == (map n | n in NamesOf(cls.fields) ::
                                        if n in ActiveNames(cls.parsingFields, version) then inst[n] else VNone)
               && decoded.value.0 == (map n | n in NamesOf(cls.fields) ::
                                        if NameActive(cls.fields, n, version) then inst[n] else VNone)
  {
    var cls := DefineSpec(decl, parents).value.value;
    BuiltClassReady(decl, parents);
    PacketRoundTrip(cls, inst, encodeExtra, decodeExtra);
    ActiveMapsAgree(cls, inst, ActiveVersion(encodeExtra.GetOr(map[]), DefaultVersionOf(cls)));
  }
}
