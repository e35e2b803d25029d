/**
 * Packet schemas (libopenttd/packets/base.py, PacketOptions): the options a packet class
 * carries, the stable sort of its fields by ordering, the merge of adjacent mergeable
 * fields into parsing fields, and the lookups over the field list.
 */
module Schema {
  import opened Common
  import opened PyStruct
  import opened Fields

  // ---------------------------------------------------------------- options

  /** The option names of a packet's Meta. */
  datatype OptName = Abstract | Direction | Protocol | Override | Virtual | ForceVirtual | DefaultVersion

  /** Options are integers here; a Python bool option is 1 or 0. */
  type Options = map<OptName, int>

  /** The names copied from a Meta class, in the order they are applied. */
  const DefaultNames: seq<OptName> := [Abstract, Direction, Protocol, Override, Virtual, ForceVirtual, DefaultVersion]
  /** The names a class copies from its parent's options. */
  const InheritedNames: seq<OptName> := [Protocol, Direction, ForceVirtual, DefaultVersion]

  /** Direction flags and the protocol a fresh PacketOptions starts with. */
  const SEND := 1
  const RECV := 2
  const BOTH := 3
  const PROTOCOL_NONE := 0xFF

  /** PacketOptions.__init__: virtual and force_virtual are not set at all. */
  const InitialOptions: Options := map[Direction := BOTH, Protocol := PROTOCOL_NONE, Abstract := 0,
                                       Override := 0, DefaultVersion := -1]

  /** Copies every listed name that `source` has onto `opts`, in list order. */
  function Overlay(opts: Options, source: Options, names: seq<OptName>): Options
    decreases |names|
  {
    if names == [] then opts
    else Overlay(if names[0] in source then opts[names[0] := source[names[0]]] else opts, source, names[1..])
  }

  /**
   * PacketOptions.contribute_to_class: start from the defaults, take the inherited names
   * the parent's options have, then every option name the Meta class has.
   */
  function ContributeSpec(base: Option<Options>, meta: Option<Options>): Options {
    var inherited := if base.Some? then Overlay(InitialOptions, base.value, InheritedNames) else InitialOptions;
    if meta.Some? then Overlay(inherited, meta.value, DefaultNames) else inherited
  }

  method ContributeOptions(base: Option<Options>, meta: Option<Options>) returns (opts: Options)
    ensures opts == ContributeSpec(base, meta)
  {
    opts := InitialOptions;
    if base.Some? {
      for k := 0 to |InheritedNames|
        invariant Overlay(InitialOptions, base.value, InheritedNames) == Overlay(opts, base.value, InheritedNames[k..])
      {
        var option := InheritedNames[k];
        assert InheritedNames[k..][1..] == InheritedNames[k + 1..];
        if option in base.value {
          opts := opts[option := base.value[option]];
        }
      }
    }
    if meta.Some? {
      var inherited := opts;
      for k := 0 to |DefaultNames|
        invariant Overlay(inherited, meta.value, DefaultNames) == Overlay(opts, meta.value, DefaultNames[k..])
      {
        var attrName := DefaultNames[k];
        assert DefaultNames[k..][1..] == DefaultNames[k + 1..];
        if attrName in meta.value {
          opts := opts[attrName := meta.value[attrName]];
        }
      }
    }
  }

  /** An overlay with distinct names sets each listed name the source has, and nothing else. */
  lemma {:induction false} OverlayValue(opts: Options, source: Options, names: seq<OptName>, n: OptName)
    requires forall i, j :: 0 <= i < j < |names| ==> names[i] != names[j]
    ensures n in names && n in source ==> n in Overlay(opts, source, names) && Overlay(opts, source, names)[n] == source[n]
    ensures !(n in names && n in source) ==> (n in Overlay(opts, source, names) <==> n in opts)
    ensures !(n in names && n in source) && n in opts ==> Overlay(opts, source, names)[n] == opts[n]
    decreases |names|
  {
    if names != [] {
      var next := if names[0] in source then opts[names[0] := source[names[0]]] else opts;
      assert forall i, j :: 0 <= i < j < |names[1..]| ==> names[1..][i] != names[1..][j] by {
        forall i, j | 0 <= i < j < |names[1..]| ensures names[1..][i] != names[1..][j] {
          assert names[1..][i] == names[i + 1] && names[1..][j] == names[j + 1];
        }
      }
      OverlayValue(next, source, names[1..], n);
      if n == names[0] {
        assert n !in names[1..] by {
          forall k | 0 <= k < |names[1..]| ensures names[1..][k] != n {
            assert names[1..][k] == names[k + 1];
          }
        }
      } else {
        assert n in names ==> n in names[1..];
      }
    }
  }

  /**
   * What a class's options end up as: the Meta's value when the Meta has the name, else the
   * parent's value for an inherited name, else the PacketOptions default (if any).
   */
  lemma ContributePrecedence(base: Option<Options>, meta: Option<Options>, n: OptName)
    ensures meta.Some? && n in meta.value ==> n in ContributeSpec(base, meta) && ContributeSpec(base, meta)[n] == meta.value[n]
    ensures !(meta.Some? && n in meta.value) && base.Some? && n in InheritedNames && n in base.value
            ==> n in ContributeSpec(base, meta) && ContributeSpec(base, meta)[n] == base.value[n]
    ensures !(meta.Some? && n in meta.value) && !(base.Some? && n in InheritedNames && n in base.value)
            ==> (n in ContributeSpec(base, meta) <==> n in InitialOptions)
    ensures !(meta.Some? && n in meta.value) && !(base.Some? && n in InheritedNames && n in base.value) && n in InitialOptions
            ==> ContributeSpec(base, meta)[n] == InitialOptions[n]
  {
    assert n in DefaultNames;
    if base.Some? {
      OverlayValue(InitialOptions, base.value, InheritedNames, n);
    }
    var inherited := if base.Some? then Overlay(InitialOptions, base.value, InheritedNames) else InitialOptions;
    if meta.Some? {
      OverlayValue(inherited, meta.value, DefaultNames, n);
    }
  }

  // ---------------------------------------------------------------- field lookups

  /** get_field_by_name: the first declared field with that name, else None. */
  function FieldByName(fields: seq<Field>, name: string): (r: Option<Field>)
    ensures r.Some? ==> exists k :: 0 <= k < |fields| && fields[k] == r.value && r.value.name == name
                                    && forall j :: 0 <= j < k ==> fields[j].name != name
    ensures r.None? ==> forall k :: 0 <= k < |fields| ==> fields[k].name != name
  {
    if fields == [] then None
    else if fields[0].name == name then Some(fields[0])
    else
      var r := FieldByName(fields[1..], name);
      assert r.Some? ==> exists k :: 0 <= k < |fields| && fields[k] == r.value && r.value.name == name
                                     && forall j :: 0 <= j < k ==> fields[j].name != name by {
        if r.Some? {
          var k :| 0 <= k < |fields[1..]| && fields[1..][k] == r.value && r.value.name == name
                   && forall j :: 0 <= j < k ==> fields[1..][j].name != name;
          assert fields[k + 1] == r.value;
          forall j | 0 <= j < k + 1 ensures fields[j].name != name {
            if j > 0 {
              assert fields[j] == fields[1..][j - 1];
            }
          }
        }
      }
      r
  }

  /**
   * The name from_data treats as the version field: the name of the LAST declared field
   * flagged is_version_identifier, or None when no field is flagged.
   */
  function VersionField(fields: seq<Field>): (r: Option<string>)
    ensures r.Some? ==> exists k :: 0 <= k < |fields| && fields[k].isVersionIdentifier && fields[k].name == r.value
                                    && forall j :: k < j < |fields| ==> !fields[j].isVersionIdentifier
    ensures r.None? ==> forall k :: 0 <= k < |fields| ==> !fields[k].isVersionIdentifier
  {
    if fields == [] then None
    else
      var last := fields[|fields| - 1];
      if last.isVersionIdentifier then Some(last.name)
      else
        var init := fields[..|fields| - 1];
        var r := VersionField(init);
        assert r.Some? ==> exists k :: 0 <= k < |fields| && fields[k].isVersionIdentifier && fields[k].name == r.value
                                       && forall j :: k < j < |fields| ==> !fields[j].isVersionIdentifier by {
          if r.Some? {
            var k :| 0 <= k < |init| && init[k].isVersionIdentifier && init[k].name == r.value
                     && forall j :: k < j < |init| ==> !init[j].isVersionIdentifier;
            assert fields[k] == init[k];
            forall j | k < j < |fields| ensures !fields[j].isVersionIdentifier {
              if j < |fields| - 1 {
                assert fields[j] == init[j];
              }
            }
          }
        }
        assert r.None? ==> forall k :: 0 <= k < |fields| ==> !fields[k].isVersionIdentifier by {
          if r.None? {
            forall k | 0 <= k < |fields| ensures !fields[k].isVersionIdentifier {
              if k < |fields| - 1 {
                assert fields[k] == init[k];
              }
            }
          }
        }
        r
  }

  // ---------------------------------------------------------------- sorting

  predicate SortedByOrdering(s: seq<Field>) {
    forall i, j :: 0 <= i < j < |s| ==> s[i].ordering <= s[j].ordering
  }

  /** Puts f in front of the first field whose ordering is not smaller. */
  function InsertByOrdering(f: Field, s: seq<Field>): (r: seq<Field>)
    ensures |r| == |s| + 1
    ensures multiset(r) == multiset(s) + multiset{f}
  {
    if s == [] || f.ordering <= s[0].ordering then [f] + s
    else
      var r := [s[0]] + InsertByOrdering(f, s[1..]);
      assert s == [s[0]] + s[1..];
      r
  }

  /** `sorted(fields, key=attrgetter("ordering"))`: a stable sort by ordering. */
  function SortByOrdering(fields: seq<Field>): (r: seq<Field>)
    ensures |r| == |fields|
    ensures multiset(r) == multiset(fields)
  {
    if fields == [] then []
    else
      assert fields == [fields[0]] + fields[1..];
      InsertByOrdering(fields[0], SortByOrdering(fields[1..]))
  }

  lemma {:induction false} InsertSorted(f: Field, s: seq<Field>)
    requires SortedByOrdering(s)
    ensures SortedByOrdering(InsertByOrdering(f, s))
    ensures forall k :: 0 <= k < |InsertByOrdering(f, s)| ==> InsertByOrdering(f, s)[k] == f || InsertByOrdering(f, s)[k] in s
  {
    if s != [] && f.ordering > s[0].ordering {
      assert SortedByOrdering(s[1..]) by {
        forall i, j | 0 <= i < j < |s[1..]| ensures s[1..][i].ordering <= s[1..][j].ordering {
          assert s[1..][i] == s[i + 1] && s[1..][j] == s[j + 1];
        }
      }
      InsertSorted(f, s[1..]);
      var t := InsertByOrdering(f, s[1..]);
      var r := [s[0]] + t;
      forall k | 0 <= k < |t| ensures s[0].ordering <= t[k].ordering {
        if t[k] != f {
          var m :| 0 <= m < |s[1..]| && s[1..][m] == t[k];
          assert s[m + 1] == t[k];
        }
      }
      forall i, j | 0 <= i < j < |r| ensures r[i].ordering <= r[j].ordering {
        if i > 0 {
          assert r[i] == t[i - 1] && r[j] == t[j - 1];
        } else {
          assert r[j] == t[j - 1];
        }
      }
      forall k | 0 <= k < |r| ensures r[k] == f || r[k] in s {
        if k > 0 {
          assert r[k] == t[k - 1];
          if t[k - 1] != f {
            var m :| 0 <= m < |s[1..]| && s[1..][m] == t[k - 1];
            assert s[m + 1] == t[k - 1];
          }
        }
      }
    } else {
      var r := [f] + s;
      forall i, j | 0 <= i < j < |r| ensures r[i].ordering <= r[j].ordering {
        if i > 0 {
          assert r[i] == s[i - 1] && r[j] == s[j - 1];
        } else {
          assert r[j] == s[j - 1];
        }
      }
      forall k | 0 <= k < |r| ensures r[k] == f || r[k] in s {
        if k > 0 {
          assert r[k] == s[k - 1];
        }
      }
    }
  }

  /** The sorted fields are in non-decreasing ordering; the largest ordering ends last. */
  lemma {:induction false} SortSorted(fields: seq<Field>)
    ensures SortedByOrdering(SortByOrdering(fields))
  {
    if fields != [] {
      SortSorted(fields[1..]);
      InsertSorted(fields[0], SortByOrdering(fields[1..]));
    }
  }

  /** Fields already in ordering order are left exactly as they are. */
  lemma {:induction false} SortedFixed(fields: seq<Field>)
    requires SortedByOrdering(fields)
    ensures SortByOrdering(fields) == fields
  {
    if fields != [] {
      var rest := fields[1..];
      SortedTail(fields);
      SortedFixed(rest);
      assert SortByOrdering(fields) == InsertByOrdering(fields[0], SortByOrdering(rest));
      InsertFront(fields[0], rest);
      assert [fields[0]] + rest == fields;
    }
  }

  lemma SortedTail(fields: seq<Field>)
    requires fields != [] && SortedByOrdering(fields)
    ensures SortedByOrdering(fields[1..])
    ensures |fields| > 1 ==> fields[0].ordering <= fields[1..][0].ordering
  {
    var rest := fields[1..];
    forall i, j | 0 <= i < j < |rest| ensures rest[i].ordering <= rest[j].ordering {
      assert rest[i] == fields[i + 1] && rest[j] == fields[j + 1];
    }
  }

  lemma InsertFront(f: Field, s: seq<Field>)
    requires s == [] || f.ordering <= s[0].ordering
    ensures InsertByOrdering(f, s) == [f] + s
  {
  }

  /** Sorting twice sorts once. */
  lemma SortIdempotent(fields: seq<Field>)
    ensures SortByOrdering(SortByOrdering(fields)) == SortByOrdering(fields)
  {
    SortSorted(fields);
    SortedFixed(SortByOrdering(fields));
  }

  /** The fields with one particular ordering, in sequence order. */
  function WithOrdering(s: seq<Field>, ordering: int): (r: seq<Field>)
    ensures forall k :: 0 <= k < |r| ==> r[k].ordering == ordering
  {
    if s == [] then []
    else if s[0].ordering == ordering then [s[0]] + WithOrdering(s[1..], ordering)
    else WithOrdering(s[1..], ordering)
  }

  lemma {:induction false} InsertStable(f: Field, s: seq<Field>, ordering: int)
    requires SortedByOrdering(s)
    ensures WithOrdering(InsertByOrdering(f, s), ordering)
         == (if f.ordering == ordering then [f] else []) + WithOrdering(s, ordering)
  {
    if s == [] || f.ordering <= s[0].ordering {
      var r := [f] + s;
      assert r[1..] == s;
      if f.ordering != ordering {
        assert [] + WithOrdering(s, ordering) == WithOrdering(s, ordering);
      }
    } else {
      assert SortedByOrdering(s[1..]) by {
        forall i, j | 0 <= i < j < |s[1..]| ensures s[1..][i].ordering <= s[1..][j].ordering {
          assert s[1..][i] == s[i + 1] && s[1..][j] == s[j + 1];
        }
      }
      InsertStable(f, s[1..], ordering);
      var r := [s[0]] + InsertByOrdering(f, s[1..]);
      assert r[1..] == InsertByOrdering(f, s[1..]);
      if s[0].ordering == ordering {
        // f sorts after s[0], so f's ordering differs from s[0]'s
        assert f.ordering != ordering;
      }
    }
  }

  /**
   * The sort is stable: the fields sharing an ordering keep the order they are listed in, so
   * the sort is a permutation that reorders only fields with different orderings.
   */
  lemma {:induction false} SortStable(fields: seq<Field>, ordering: int)
    ensures WithOrdering(SortByOrdering(fields), ordering) == WithOrdering(fields, ordering)
  {
    if fields != [] {
      SortStable(fields[1..], ordering);
      SortSorted(fields[1..]);
      InsertStable(fields[0], SortByOrdering(fields[1..]), ordering);
    }
  }

  // ---------------------------------------------------------------- merging

  function Last(gs: seq<ParsingField>): ParsingField
    requires gs != []
  {
    gs[|gs| - 1]
  }

  /**
   * The merge loop of PacketOptions._prepare from a given state: a field joins the last
   * leader when that leader accepts it, and otherwise becomes a new leader.
   */
  function MergeFrom(rule: MergeRule, fs: seq<Field>, acc: seq<ParsingField>): seq<ParsingField>
    decreases |fs|
  {
    if fs == [] then acc
    else if acc != [] && CanMerge(rule, Last(acc).leader, fs[0]) then
      MergeFrom(rule, fs[1..], acc[..|acc| - 1] + [Last(acc).(neighbours := Last(acc).neighbours + [fs[0]])])
    else MergeFrom(rule, fs[1..], acc + [StartGroup(fs[0])])
  }

  function MergeRuns(rule: MergeRule, fs: seq<Field>): seq<ParsingField> {
    MergeFrom(rule, fs, [])
  }

  method MergeParsing(rule: MergeRule, fieldsSorted: seq<Field>) returns (parsingFields: seq<ParsingField>)
    ensures parsingFields == MergeRuns(rule, fieldsSorted)
  {
    parsingFields := [];
    var i := 0;
    while i < |fieldsSorted|
      invariant 0 <= i <= |fieldsSorted|
      invariant MergeRuns(rule, fieldsSorted) == MergeFrom(rule, fieldsSorted[i..], parsingFields)
    {
      var field := fieldsSorted[i];
      assert fieldsSorted[i..][1..] == fieldsSorted[i + 1..];
      if parsingFields != [] && CanMerge(rule, parsingFields[|parsingFields| - 1].leader, field) {
        var lastField := parsingFields[|parsingFields| - 1];
        parsingFields := parsingFields[..|parsingFields| - 1] + [lastField.(neighbours := lastField.neighbours + [field])];
        i := i + 1;
        continue;
      }
      parsingFields := parsingFields + [StartGroup(field)];
      i := i + 1;
    }
    assert fieldsSorted[i..] == [];
  }

  /** Each parsing field followed by its neighbours, in order. */
  function Flatten(gs: seq<ParsingField>): seq<Field> {
    if gs == [] then [] else Members(gs[0]) + Flatten(gs[1..])
  }

  lemma {:induction false} FlattenAppend(gs: seq<ParsingField>, g: ParsingField)
    ensures Flatten(gs + [g]) == Flatten(gs) + Members(g)
  {
    if gs == [] {
      assert [] + [g] == [g];
      assert Flatten([g]) == Members(g) + Flatten([]);
    } else {
      assert (gs + [g])[0] == gs[0] && (gs + [g])[1..] == gs[1..] + [g];
      FlattenAppend(gs[1..], g);
    }
  }

  lemma FlattenMergeLast(init: seq<ParsingField>, g: ParsingField, f: Field)
    ensures Flatten(init + [g.(neighbours := g.neighbours + [f])]) == Flatten(init + [g]) + [f]
  {
    var g' := g.(neighbours := g.neighbours + [f]);
    FlattenAppend(init, g');
    FlattenAppend(init, g);
    calc {
      Members(g');
      [g.leader] + (g.neighbours + [f]);
      Members(g) + [f];
    }
  }

  /** Merging keeps every field once and in order: flattening the groups gives the input back. */
  lemma {:induction false} MergeFlatten(rule: MergeRule, fs: seq<Field>, acc: seq<ParsingField>)
    ensures Flatten(MergeFrom(rule, fs, acc)) == Flatten(acc) + fs
    decreases |fs|
  {
    if fs == [] {
      assert MergeFrom(rule, fs, acc) == acc;
      assert Flatten(acc) + fs == Flatten(acc);
    } else {
      var f, rest := fs[0], fs[1..];
      assert fs == [f] + rest;
      var next := MergeOneFlatten(rule, f, rest, acc);
      MergeFlatten(rule, rest, next);
      assert Flatten(acc) + [f] + rest == Flatten(acc) + fs;
    }
  }

  /** One step of the merge: the field joins the last group or starts its own, and flattening sees it appended. */
  lemma MergeOneFlatten(rule: MergeRule, f: Field, rest: seq<Field>, acc: seq<ParsingField>) returns (next: seq<ParsingField>)
    ensures MergeFrom(rule, [f] + rest, acc) == MergeFrom(rule, rest, next)
    ensures Flatten(next) == Flatten(acc) + [f]
  {
    assert ([f] + rest)[0] == f && ([f] + rest)[1..] == rest;
    if acc != [] && CanMerge(rule, Last(acc).leader, f) {
      next := acc[..|acc| - 1] + [Last(acc).(neighbours := Last(acc).neighbours + [f])];
      FlattenMergeLast(acc[..|acc| - 1], Last(acc), f);
      assert acc[..|acc| - 1] + [Last(acc)] == acc;
    } else {
      next := acc + [StartGroup(f)];
      FlattenAppend(acc, StartGroup(f));
      assert Members(StartGroup(f)) == [f];
    }
  }

  /**
   * What the merge guarantees about its groups: every neighbour was accepted by its leader,
   * and of two consecutive groups the first leader refused the second.
   */
  predicate MergedBy(rule: MergeRule, gs: seq<ParsingField>) {
    (forall j, k :: 0 <= j < |gs| && 0 <= k < |gs[j].neighbours| ==> CanMerge(rule, gs[j].leader, gs[j].neighbours[k]))
    && (forall j :: 0 <= j < |gs| - 1 ==> !CanMerge(rule, gs[j].leader, gs[j + 1].leader))
  }

  lemma {:induction false} MergeKeeps(rule: MergeRule, fs: seq<Field>, acc: seq<ParsingField>)
    requires MergedBy(rule, acc)
    ensures MergedBy(rule, MergeFrom(rule, fs, acc))
    ensures acc != [] ==> MergeFrom(rule, fs, acc) != [] && MergeFrom(rule, fs, acc)[0].leader == acc[0].leader
    ensures acc == [] && fs != [] ==> MergeFrom(rule, fs, acc) != [] && MergeFrom(rule, fs, acc)[0].leader == fs[0]
  {
    if fs != [] {
      if acc != [] && CanMerge(rule, Last(acc).leader, fs[0]) {
        var g := Last(acc);
        var next := acc[..|acc| - 1] + [g.(neighbours := g.neighbours + [fs[0]])];
        assert MergedBy(rule, next) by {
          forall j, k | 0 <= j < |next| && 0 <= k < |next[j].neighbours|
            ensures CanMerge(rule, next[j].leader, next[j].neighbours[k])
          {
            if j < |acc| - 1 {
              assert next[j] == acc[j];
            } else if k < |g.neighbours| {
              assert next[j].neighbours[k] == g.neighbours[k];
            }
          }
          forall j | 0 <= j < |next| - 1 ensures !CanMerge(rule, next[j].leader, next[j + 1].leader) {
            assert next[j] == acc[j];
            assert next[j + 1].leader == acc[j + 1].leader;
          }
        }
        MergeKeeps(rule, fs[1..], next);
      } else {
        var next := acc + [StartGroup(fs[0])];
        assert MergedBy(rule, next) by {
          forall j, k | 0 <= j < |next| && 0 <= k < |next[j].neighbours|
            ensures CanMerge(rule, next[j].leader, next[j].neighbours[k])
          {
            assert next[j] == acc[j];
          }
          forall j | 0 <= j < |next| - 1 ensures !CanMerge(rule, next[j].leader, next[j + 1].leader) {
            assert next[j] == acc[j];
            if j < |acc| - 1 {
              assert next[j + 1] == acc[j + 1];
            }
          }
        }
        MergeKeeps(rule, fs[1..], next);
      }
    }
  }

  /**
   * The merged groups: each neighbour accepted by its leader, consecutive leaders refusing
   * each other, and so a string field always alone in its group.
   */
  lemma MergeRunsProperties(rule: MergeRule, fs: seq<Field>)
    ensures Flatten(MergeRuns(rule, fs)) == fs
    ensures MergedBy(rule, MergeRuns(rule, fs))
    ensures forall j :: 0 <= j < |MergeRuns(rule, fs)| ==> WellFormed(MergeRuns(rule, fs)[j])
    ensures fs != [] ==> MergeRuns(rule, fs) != [] && MergeRuns(rule, fs)[0].leader == fs[0]
  {
    MergeFlatten(rule, fs, []);
    assert Flatten([]) + fs == fs;
    MergeKeeps(rule, fs, []);
    var gs := MergeRuns(rule, fs);
    forall j | 0 <= j < |gs| ensures WellFormed(gs[j]) {
      if gs[j].neighbours != [] {
        assert CanMerge(rule, gs[j].leader, gs[j].neighbours[0]);
      }
      forall k | 0 <= k < |gs[j].neighbours| ensures gs[j].neighbours[k].kind.StructKind? {
        assert CanMerge(rule, gs[j].leader, gs[j].neighbours[k]);
      }
    }
  }

  /** Under the version-respecting rule every group is version-homogeneous. */
  lemma MergeHomogeneous(fs: seq<Field>)
    ensures forall j, k :: 0 <= j < |MergeRuns(SameVersionStruct, fs)| && 0 <= k < |MergeRuns(SameVersionStruct, fs)[j].neighbours|
              ==> MergeRuns(SameVersionStruct, fs)[j].neighbours[k].requiredVersion
                  == MergeRuns(SameVersionStruct, fs)[j].leader.requiredVersion
  {
    MergeRunsProperties(SameVersionStruct, fs);
  }

  /** A run of struct fields that the first accepts all ends up in one parsing field. */
  lemma {:induction false} MergeAllIntoOne(rule: MergeRule, fs: seq<Field>, acc: seq<ParsingField>)
    requires acc != []
    requires forall k :: 0 <= k < |fs| ==> CanMerge(rule, Last(acc).leader, fs[k])
    ensures |MergeFrom(rule, fs, acc)| == |acc|
  {
    if fs != [] {
      var g := Last(acc);
      var next := acc[..|acc| - 1] + [g.(neighbours := g.neighbours + [fs[0]])];
      assert Last(next).leader == g.leader;
      forall k | 0 <= k < |fs[1..]| ensures CanMerge(rule, Last(next).leader, fs[1..][k]) {
        assert fs[1..][k] == fs[k + 1];
      }
      MergeAllIntoOne(rule, fs[1..], next);
    }
  }

  /** Adjacent struct fields with one required version merge into exactly one parsing field. */
  lemma MergeStructRun(rule: MergeRule, fs: seq<Field>)
    requires fs != []
    requires forall k :: 0 <= k < |fs| ==> fs[k].kind.StructKind? && fs[k].requiredVersion == fs[0].requiredVersion
    ensures |MergeRuns(rule, fs)| == 1
  {
    var first := [StartGroup(fs[0])];
    assert [] + [StartGroup(fs[0])] == first;
    assert MergeRuns(rule, fs) == MergeFrom(rule, fs[1..], first);
    forall k | 0 <= k < |fs[1..]| ensures CanMerge(rule, Last(first).leader, fs[1..][k]) {
      assert fs[1..][k] == fs[k + 1];
    }
    MergeAllIntoOne(rule, fs[1..], first);
  }

  // ---------------------------------------------------------------- preparing a class

  /** The second loop of _prepare: every parsing field prepares itself, in order. */
  function PrepareAllSpec(gs: seq<ParsingField>): (r: Result<seq<ParsingField>>)
    requires forall j :: 0 <= j < |gs| ==> WellFormed(gs[j])
    ensures r.Success? ==> |r.value| == |gs|
  {
    if gs == [] then Success([])
    else
      var g :- PrepareGroupSpec(gs[0]);
      var rest :- PrepareAllSpec(gs[1..]);
      Success([g] + rest)
  }

  /** A prepared parsing field: well formed, and preparing it again changes nothing. */
  predicate IsPrepared(g: ParsingField) {
    WellFormed(g) && PrepareGroupSpec(g) == Success(g)
  }

  /** Preparing a group does not move its members and makes it prepared. */
  lemma PrepareIdempotent(g: ParsingField)
    requires WellFormed(g) && PrepareGroupSpec(g).Success?
    ensures Members(PrepareGroupSpec(g).value) == Members(g)
    ensures IsPrepared(PrepareGroupSpec(g).value)
  {
  }

  lemma {:induction false} PrepareAllProperties(gs: seq<ParsingField>)
    requires forall j :: 0 <= j < |gs| ==> WellFormed(gs[j])
    requires PrepareAllSpec(gs).Success?
    ensures forall j :: 0 <= j < |gs| ==>
              (IsPrepared(PrepareAllSpec(gs).value[j])
               && PrepareAllSpec(gs).value[j].leader == gs[j].leader
               && PrepareAllSpec(gs).value[j].neighbours == gs[j].neighbours)
  {
    if gs != [] {
      PrepareIdempotent(gs[0]);
      PrepareAllProperties(gs[1..]);
      var r := PrepareAllSpec(gs).value;
      assert r == [PrepareGroupSpec(gs[0]).value] + PrepareAllSpec(gs[1..]).value;
      forall j | 1 <= j < |gs| ensures r[j] == PrepareAllSpec(gs[1..]).value[j - 1] && gs[j] == gs[1..][j - 1] {
      }
    }
  }

  /** PacketOptions._prepare: sort, merge, then prepare every parsing field. */
  function PrepareSchemaSpec(rule: MergeRule, fields: seq<Field>): Result<(seq<Field>, seq<ParsingField>)> {
    var sorted := SortByOrdering(fields);
    MergeRunsProperties(rule, sorted);
    var parsing :- PrepareAllSpec(MergeRuns(rule, sorted));
    Success((sorted, parsing))
  }

  /** A failure, or the prefix followed by the successful rest. */
  function Glue(prefix: seq<ParsingField>, rest: Result<seq<ParsingField>>): Result<seq<ParsingField>> {
    if rest.Failure? then rest else Success(prefix + rest.value)
  }

  method PrepareAll(gs: seq<ParsingField>) returns (r: Result<seq<ParsingField>>)
    requires forall j :: 0 <= j < |gs| ==> WellFormed(gs[j])
    ensures r == PrepareAllSpec(gs)
  {
    var parsingFields: seq<ParsingField> := [];
    assert gs[0..] == gs;
    if PrepareAllSpec(gs).Success? {
      assert [] + PrepareAllSpec(gs).value == PrepareAllSpec(gs).value;
    }
    for k := 0 to |gs|
      invariant PrepareAllSpec(gs) == Glue(parsingFields, PrepareAllSpec(gs[k..]))
    {
      assert gs[k..][0] == gs[k] && gs[k..][1..] == gs[k + 1..];
      var prepared := PrepareGroup(gs[k]);
      if prepared.Failure? {
        return Failure(prepared.error);
      }
      var rest := PrepareAllSpec(gs[k + 1..]);
      if rest.Success? {
        assert parsingFields + ([prepared.value] + rest.value) == (parsingFields + [prepared.value]) + rest.value;
      }
      parsingFields := parsingFields + [prepared.value];
    }
    assert gs[|gs|..] == [];
    assert parsingFields + [] == parsingFields;
    return Success(parsingFields);
  }

  method PrepareSchema(rule: MergeRule, fields: seq<Field>) returns (r: Result<(seq<Field>, seq<ParsingField>)>)
    ensures r == PrepareSchemaSpec(rule, fields)
  {
    var fieldsSorted := SortByOrdering(fields);
    var merged := MergeParsing(rule, fieldsSorted);
    MergeRunsProperties(rule, fieldsSorted);
    var parsingFields := PrepareAll(merged);
    if parsingFields.Failure? {
      return Failure(parsingFields.error);
    }
    return Success((fieldsSorted, parsingFields.value));
  }

  /** Flattening depends only on each group's leader and neighbours, not on what was prepared. */
  lemma {:induction false} FlattenSameMembers(gs: seq<ParsingField>, hs: seq<ParsingField>)
    requires |gs| == |hs|
    requires forall j :: 0 <= j < |gs| ==> gs[j].leader == hs[j].leader && gs[j].neighbours == hs[j].neighbours
    ensures Flatten(gs) == Flatten(hs)
  {
    if gs != [] {
      assert Members(gs[0]) == Members(hs[0]);
      FlattenSameMembers(gs[1..], hs[1..]);
    }
  }

  /**
   * What a successful _prepare leaves: the fields sorted by ordering (a permutation of the
   * declared fields), parsing fields that list exactly the sorted fields, each one prepared,
   * and the merge's guarantees about leaders and neighbours.
   */
  lemma PrepareSchemaShape(rule: MergeRule, fields: seq<Field>)
    requires PrepareSchemaSpec(rule, fields).Success?
    ensures var (sorted, parsing) := PrepareSchemaSpec(rule, fields).value;
            SortedByOrdering(sorted) && multiset(sorted) == multiset(fields)
            && Flatten(parsing) == sorted
            && MergedBy(rule, parsing)
            && forall j :: 0 <= j < |parsing| ==> IsPrepared(parsing[j])
  {
    var sorted := SortByOrdering(fields);
    SortSorted(fields);
    MergeRunsProperties(rule, sorted);
    var merged := MergeRuns(rule, sorted);
    PrepareAllProperties(merged);
    var parsing := PrepareAllSpec(merged).value;
    assert PrepareSchemaSpec(rule, fields).value == (sorted, parsing);
    FlattenSameMembers(parsing, merged);
  }

  // ---------------------------------------------------------------- packet classes

  /**
   * A packet class as the metaclass leaves it: its pid, its options, the Meta class it
   * exposes to subclasses, its declared fields, and what _prepare computed.
   */
  datatype PacketClass = PacketClass(
    name: string,
    pid: int,
    options: Options,
    meta: Option<Options>,
    fields: seq<Field>,
    fieldsSorted: seq<Field>,
    parsingFields: seq<ParsingField>,
    prepared: bool)

  /** A class whose sorted and parsing fields are what _prepare computes from its fields. */
  predicate PreparedFrom(cls: PacketClass) {
    PrepareSchemaSpec(SameVersionStruct, cls.fields) == Success((cls.fieldsSorted, cls.parsingFields))
  }

  function OptionOr(cls: PacketClass, n: OptName, default: int): int {
    if n in cls.options then cls.options[n] else default
  }

  function DefaultVersionOf(cls: PacketClass): int {
    OptionOr(cls, DefaultVersion, -1)
  }
}
