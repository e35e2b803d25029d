/**
 * EnumHelper: a class whose upper-case attributes are its members. The first query builds a
 * name table and a value table from the class's attributes, once; validity is membership in
 * the value table, or for a flag enum any value below twice the largest member.
 */
module Enums {
  import opened Common
  import opened Schema

  /** `name.upper() == name` for ASCII names: no lower-case letter in it. */
  predicate IsUpper(name: string) {
    forall i :: 0 <= i < |name| ==> !('a' <= name[i] <= 'z')
  }

  /** An attribute enters the tables when its name is upper-case and has no leading underscore. */
  predicate IsMember(name: string) {
    IsUpper(name) && !(|name| > 0 && name[0] == '_')
  }

  /** The name table (`__dict`) after the loop has visited `attrs`, in order. */
  function NameTable(attrs: seq<(string, int)>): map<string, int>
    decreases |attrs|
  {
    if attrs == [] then map[]
    else
      var last := attrs[|attrs| - 1];
      var m := NameTable(attrs[..|attrs| - 1]);
      if IsMember(last.0) then m[last.0 := last.1] else m
  }

  /** The value table (`__rdict`) after the loop has visited `attrs`: a later name for a value wins. */
  function ValueTable(attrs: seq<(string, int)>): map<int, string>
    decreases |attrs|
  {
    if attrs == [] then map[]
    else
      var last := attrs[|attrs| - 1];
      var m := ValueTable(attrs[..|attrs| - 1]);
      if IsMember(last.0) then m[last.1 := last.0] else m
  }

  /** The values of the members among `attrs`, in order. */
  function MemberValues(attrs: seq<(string, int)>): (r: seq<int>)
    ensures forall v :: v in r <==> v in ValueTable(attrs)
    decreases |attrs|
  {
    if attrs == [] then []
    else
      var last := attrs[|attrs| - 1];
      var vs := MemberValues(attrs[..|attrs| - 1]);
      if IsMember(last.0) then vs + [last.1] else vs
  }

  /** The last item of `sorted(values)`. */
  function Largest(values: seq<int>): (r: int)
    requires values != []
    ensures r in values && forall v :: v in values ==> v <= r
  {
    if |values| == 1 then values[0]
    else
      var rest := Largest(values[1..]);
      assert forall v :: v in values ==> v == values[0] || v in values[1..];
      if values[0] > rest then values[0] else rest
  }

  /** The first item of `sorted(values)`. */
  function Smallest(values: seq<int>): (r: int)
    requires values != []
    ensures r in values && forall v :: v in values ==> r <= v
  {
    if |values| == 1 then values[0]
    else
      var rest := Smallest(values[1..]);
      assert forall v :: v in values ==> v == values[0] || v in values[1..];
      if values[0] < rest then values[0] else rest
  }

  /**
   * The name table holds exactly the member names among the attributes, and, names being
   * distinct as `dir` gives them, each with its own attribute's value.
   */
  lemma {:induction false} NameTableHolds(attrs: seq<(string, int)>)
    ensures forall n :: n in NameTable(attrs) <==> IsMember(n) && exists i :: 0 <= i < |attrs| && attrs[i].0 == n
    ensures DistinctNames(attrs) ==>
              forall i :: 0 <= i < |attrs| && IsMember(attrs[i].0) ==> NameTable(attrs)[attrs[i].0] == attrs[i].1
    decreases |attrs|
  {
    if attrs != [] {
      var init := attrs[..|attrs| - 1];
      NameTableHolds(init);
      assert forall i :: 0 <= i < |init| ==> init[i] == attrs[i];
      forall n | IsMember(n) && exists i :: 0 <= i < |attrs| && attrs[i].0 == n
        ensures n in NameTable(attrs)
      {
        var i :| 0 <= i < |attrs| && attrs[i].0 == n;
        if i < |init| {
          assert init[i].0 == n;
        }
      }
      if DistinctNames(attrs) {
        assert DistinctNames(init);
      }
    }
  }

  /** `dir(cls)` lists every attribute name once. */
  predicate DistinctNames(attrs: seq<(string, int)>) {
    forall i, j :: 0 <= i < j < |attrs| ==> attrs[i].0 != attrs[j].0
  }

  /**
   * The value table holds exactly the values of members, each mapped to the last member
   * name that carries it.
   */
  lemma ValueTableHolds(attrs: seq<(string, int)>)
    ensures forall v :: v in ValueTable(attrs) <==> exists i :: 0 <= i < |attrs| && IsMember(attrs[i].0) && attrs[i].1 == v
    ensures forall v :: v in ValueTable(attrs) ==>
              exists i :: 0 <= i < |attrs| && IsMember(attrs[i].0) && attrs[i].1 == v && ValueTable(attrs)[v] == attrs[i].0
                          && forall j :: i < j < |attrs| && IsMember(attrs[j].0) ==> attrs[j].1 != v
  {
    forall v ensures v in ValueTable(attrs) <==> exists i :: 0 <= i < |attrs| && IsMember(attrs[i].0) && attrs[i].1 == v {
      ValueTableDomain(attrs, v);
    }
    forall v | v in ValueTable(attrs)
      ensures exists i :: 0 <= i < |attrs| && IsMember(attrs[i].0) && attrs[i].1 == v && ValueTable(attrs)[v] == attrs[i].0
                          && forall j :: i < j < |attrs| && IsMember(attrs[j].0) ==> attrs[j].1 != v
    {
      var i := ValueTableWitness(attrs, v);
    }
  }

  lemma {:induction false} ValueTableDomain(attrs: seq<(string, int)>, v: int)
    ensures v in ValueTable(attrs) <==> exists i :: 0 <= i < |attrs| && IsMember(attrs[i].0) && attrs[i].1 == v
    decreases |attrs|
  {
    if attrs != [] {
      var m := |attrs| - 1;
      var init := attrs[..m];
      ValueTableDomain(init, v);
      if exists i :: 0 <= i < |attrs| && IsMember(attrs[i].0) && attrs[i].1 == v {
        var i :| 0 <= i < |attrs| && IsMember(attrs[i].0) && attrs[i].1 == v;
        if i < m {
          assert init[i] == attrs[i];
        }
      }
      if v in ValueTable(init) {
        var i :| 0 <= i < m && IsMember(init[i].0) && init[i].1 == v;
        assert init[i] == attrs[i];
      }
    }
  }

  /** The member a value maps to: the last member carrying the value. */
  lemma {:induction false} ValueTableWitness(attrs: seq<(string, int)>, v: int) returns (i: nat)
    requires v in ValueTable(attrs)
    ensures i < |attrs| && IsMember(attrs[i].0) && attrs[i].1 == v && ValueTable(attrs)[v] == attrs[i].0
    ensures forall j :: i < j < |attrs| && IsMember(attrs[j].0) ==> attrs[j].1 != v
    decreases |attrs|
  {
    var m := |attrs| - 1;
    var init := attrs[..m];
    if IsMember(attrs[m].0) && attrs[m].1 == v {
      i := m;
    } else {
      i := ValueTableWitness(init, v);
      assert init[i] == attrs[i];
    }
  }

  /** Looking a member's name up by its value and then its value by that name comes back to the value. */
  lemma NameThenValue(attrs: seq<(string, int)>, v: int)
    requires DistinctNames(attrs) && v in ValueTable(attrs)
    ensures ValueTable(attrs)[v] in NameTable(attrs) && NameTable(attrs)[ValueTable(attrs)[v]] == v
  {
    ValueTableHolds(attrs);
    NameTableHolds(attrs);
  }

  /**
   * Looking a member's value up by its name and then its name by that value comes back to
   * the name unless a later member shares the value.
   */
  lemma ValueThenName(attrs: seq<(string, int)>, i: nat)
    requires DistinctNames(attrs) && i < |attrs| && IsMember(attrs[i].0)
    requires forall j :: i < j < |attrs| && IsMember(attrs[j].0) ==> attrs[j].1 != attrs[i].1
    ensures attrs[i].0 in NameTable(attrs) && NameTable(attrs)[attrs[i].0] in ValueTable(attrs)
    ensures ValueTable(attrs)[NameTable(attrs)[attrs[i].0]] == attrs[i].0
  {
    NameTableHolds(attrs);
    ValueTableHolds(attrs);
    var v := attrs[i].1;
    var k :| 0 <= k < |attrs| && IsMember(attrs[k].0) && attrs[k].1 == v && ValueTable(attrs)[v] == attrs[k].0
             && forall j :: k < j < |attrs| && IsMember(attrs[j].0) ==> attrs[j].1 != v;
    if k < i {
      assert false;
    }
  }

  /** The class-level state of one EnumHelper subclass. */
  class EnumHelper {
    const isFlag: bool
    /** The class's attributes in `dir` order, those with integer values. */
    const attributes: seq<(string, int)>
    var built: bool
    var names: map<string, int>
    var values: map<int, string>
    var largest: Option<int>
    var smallest: Option<int>

    /** Once built, the tables and extremes are those of the declared members. */
    predicate Valid()
      reads this
    {
      (!built ==> largest == None && smallest == None)
      && (built ==>
        names == NameTable(attributes) && values == ValueTable(attributes)
        && largest == (if MemberValues(attributes) == [] then None else Some(Largest(MemberValues(attributes))))
        && smallest == (if MemberValues(attributes) == [] then None else Some(Smallest(MemberValues(attributes)))))
    }

    /** The class statement: nothing built yet. */
    constructor (isFlag: bool, attributes: seq<(string, int)>)
      ensures Valid() && !built
      ensures this.isFlag == isFlag && this.attributes == attributes
      ensures largest == None && smallest == None
    {
      this.isFlag := isFlag;
      this.attributes := attributes;
      built := false;
      names := map[];
      values := map[];
      largest := None;
      smallest := None;
    }

    /** _build: the first call fills the tables and extremes; later calls change nothing. */
    method Build()
      requires Valid()
      modifies this
      ensures Valid() && built
      ensures old(built) ==> names == old(names) && values == old(values)
                             && largest == old(largest) && smallest == old(smallest)
    {
      if built {
        return;
      }
      built := true;
      names := map[];
      values := map[];
      var kept: seq<int> := [];
      for k := 0 to |attributes|
        invariant built && largest == None && smallest == None
        invariant names == NameTable(attributes[..k]) && values == ValueTable(attributes[..k])
        invariant kept == MemberValues(attributes[..k])
      {
        var item := attributes[k];
        assert attributes[..k + 1][..k] == attributes[..k];
        if !IsMember(item.0) {
          continue;
        }
        names := names[item.0 := item.1];
        values := values[item.1 := item.0];
        kept := kept + [item.1];
      }
      assert attributes[..|attributes|] == attributes;
      if |kept| > 0 {
        largest := Some(Largest(kept));
        smallest := Some(Smallest(kept));
      }
    }

    /**
     * is_valid: for a flag enum, any value from 0 up to twice the largest member, exclusive;
     * with no member, a negative value is rejected by the short-circuiting `and` before the
     * missing maximum is used, and any other value raises TypeError. Otherwise exactly the
     * member values.
     */
    method IsValid(value: int) returns (r: Result<bool>)
      requires Valid()
      modifies this
      ensures Valid() && built
      ensures isFlag && MemberValues(attributes) == [] ==>
                r == (if value < 0 then Success(false) else Failure(TypeError))
      ensures isFlag && MemberValues(attributes) != [] ==>
                r == Success(0 <= value < 2 * Largest(MemberValues(attributes)))
      ensures !isFlag ==> r.Success? && (r.value <==> exists i :: 0 <= i < |attributes| && IsMember(attributes[i].0)
                                                                    && attributes[i].1 == value)
    {
      Build();
      ValueTableHolds(attributes);
      if isFlag {
        if value < 0 {
          return Success(false);
        }
        if largest.None? {
          return Failure(TypeError);
        }
        return Success(value >= 0 && value < largest.value * 2);
      }
      return Success(value in values);
    }

    /** get_name: the last member name carrying `value`, or None. */
    method GetName(value: int) returns (r: Option<string>)
      requires Valid()
      modifies this
      ensures Valid() && built
      ensures r.Some? <==> exists i :: 0 <= i < |attributes| && IsMember(attributes[i].0) && attributes[i].1 == value
      ensures r.Some? ==> exists i :: 0 <= i < |attributes| && attributes[i] == (r.value, value) && IsMember(r.value)
                                      && forall j :: i < j < |attributes| && IsMember(attributes[j].0) ==>
                                                       attributes[j].1 != value
    {
      Build();
      ValueTableHolds(attributes);
      if value in values {
        return Some(values[value]);
      }
      return None;
    }

    /** get_from_name: the value of the member called `name`, or None. */
    method GetFromName(name: string) returns (r: Option<int>)
      requires Valid() && DistinctNames(attributes)
      modifies this
      ensures Valid() && built
      ensures r.Some? <==> IsMember(name) && exists i :: 0 <= i < |attributes| && attributes[i].0 == name
      ensures r.Some? ==> exists i :: 0 <= i < |attributes| && attributes[i] == (name, r.value)
    {
      Build();
      NameTableHolds(attributes);
      if name in names {
        return Some(names[name]);
      }
      return None;
    }
  }

  // ---------------------------------------------------------------- Direction and Protocol

  /** Direction's integer attributes in `dir` order; `is_flag` is True, the int 1. */
  const DirectionAttributes: seq<(string, int)> := [("BOTH", BOTH), ("RECV", RECV), ("SEND", SEND), ("is_flag", 1)]

  /** Protocol's integer attributes in `dir` order. */
  const ProtocolAttributes: seq<(string, int)> :=
    [("ADMIN", 0x01), ("CLIENT", 0x02), ("MSU", 0x04), ("NONE", PROTOCOL_NONE), ("is_flag", 1)]

  /** Direction's members are SEND, RECV and BOTH; it accepts 0 to 5, and BOTH is its largest. */
  lemma DirectionTables()
    ensures NameTable(DirectionAttributes) == map["BOTH" := BOTH, "RECV" := RECV, "SEND" := SEND]
    ensures MemberValues(DirectionAttributes) == [BOTH, RECV, SEND]
    ensures Largest(MemberValues(DirectionAttributes)) == BOTH && Smallest(MemberValues(DirectionAttributes)) == SEND
  {
    var a := DirectionAttributes;
    assert !IsMember("is_flag") by { assert !IsUpper("is_flag") by { assert "is_flag"[0] == 'i'; } }
    assert IsMember("BOTH") && IsMember("RECV") && IsMember("SEND");
    assert a[..3] == [("BOTH", BOTH), ("RECV", RECV), ("SEND", SEND)];
    assert a[..3][..2] == [("BOTH", BOTH), ("RECV", RECV)];
    assert a[..3][..2][..1] == [("BOTH", BOTH)];
    assert [("BOTH", BOTH)][..0] == [];
    assert MemberValues([("BOTH", BOTH)]) == [BOTH];
    assert MemberValues(a[..3][..2]) == [BOTH, RECV];
    assert MemberValues(a[..3]) == [BOTH, RECV, SEND];
    assert NameTable([("BOTH", BOTH)]) == map["BOTH" := BOTH];
    assert NameTable(a[..3][..2]) == map["BOTH" := BOTH, "RECV" := RECV];
    assert NameTable(a[..3]) == map["BOTH" := BOTH, "RECV" := RECV, "SEND" := SEND];
    assert [BOTH, RECV, SEND][1..] == [RECV, SEND] && [RECV, SEND][1..] == [SEND];
  }

  /** The members of Protocol among its attributes, in order. */
  lemma ProtocolMembers()
    ensures MemberValues(ProtocolAttributes) == [0x01, 0x02, 0x04, PROTOCOL_NONE]
  {
    var a := ProtocolAttributes;
    assert !IsMember("is_flag") by { assert !IsUpper("is_flag") by { assert "is_flag"[0] == 'i'; } }
    assert IsMember("ADMIN") && IsMember("CLIENT") && IsMember("MSU") && IsMember("NONE");
    assert a[..1] == [("ADMIN", 0x01)] && a[..1][..0] == [];
    assert MemberValues(a[..1]) == [0x01];
    assert a[..2][..1] == a[..1] && a[..2][1] == ("CLIENT", 0x02);
    assert MemberValues(a[..2]) == [0x01, 0x02];
    assert a[..3][..2] == a[..2] && a[..3][2] == ("MSU", 0x04);
    assert MemberValues(a[..3]) == [0x01, 0x02, 0x04];
    assert a[..4][..3] == a[..3] && a[..4][3] == ("NONE", PROTOCOL_NONE);
    assert MemberValues(a[..4]) == [0x01, 0x02, 0x04, PROTOCOL_NONE];
    assert a[..5][..4] == a[..4] && a[..5] == a;
  }

  /** Protocol's members are ADMIN, CLIENT, MSU and NONE; the largest is NONE, 0xFF, the smallest ADMIN. */
  lemma ProtocolTables()
    ensures MemberValues(ProtocolAttributes) == [0x01, 0x02, 0x04, PROTOCOL_NONE]
    ensures Largest(MemberValues(ProtocolAttributes)) == PROTOCOL_NONE
    ensures Smallest(MemberValues(ProtocolAttributes)) == 0x01
  {
    ProtocolMembers();
    var vs := [0x01, 0x02, 0x04, PROTOCOL_NONE];
    assert PROTOCOL_NONE in vs && 0x01 in vs;
    assert forall v :: v in vs ==> 0x01 <= v <= PROTOCOL_NONE;
  }

  /** Direction.is_valid: exactly 0 to 5, so every combination of SEND and RECV passes. */
  method DirectionIsValid(value: int) returns (r: Result<bool>)
    ensures r == Success(0 <= value < 6)
  {
    DirectionTables();
    var direction := new EnumHelper(true, DirectionAttributes);
    r := direction.IsValid(value);
  }

  /** Protocol.is_valid: exactly 0 to 0x1FD, because NONE is 0xFF. */
  method ProtocolIsValid(value: int) returns (r: Result<bool>)
    ensures r == Success(0 <= value < 0x1FE)
  {
    ProtocolTables();
    var protocol := new EnumHelper(true, ProtocolAttributes);
    r := protocol.IsValid(value);
  }
}
