/**
 * PacketRegistry (libopenttd/packets/registry.py): packet classes filed by protocol, then
 * direction, then packet id. A class meant for both directions is filed under SEND, RECV
 * and BOTH; an id already taken is kept unless the newcomer asks to override it.
 */
module Registry {
  import opened Common
  import opened Schema

  /** protocol -> direction -> packet id -> class. */
  type Tables = map<int, map<int, map<int, PacketClass>>>

  /** One table, with the missing levels of the nested defaultdict read as empty. */
  function Table(all: Tables, protocol: int, direction: int): map<int, PacketClass> {
    if protocol in all && direction in all[protocol] then all[protocol][direction] else map[]
  }

  /** `all[protocol][direction][pid] = packet`, creating the missing levels. */
  function Store(all: Tables, protocol: int, direction: int, pid: int, packet: PacketClass): (r: Tables)
    ensures Table(r, protocol, direction) == Table(all, protocol, direction)[pid := packet]
    ensures forall p, d :: (p, d) != (protocol, direction) ==> Table(r, p, d) == Table(all, p, d)
  {
    var byDirection := if protocol in all then all[protocol] else map[];
    all[protocol := byDirection[direction := Table(all, protocol, direction)[pid := packet]]]
  }

  function DirectionOf(packet: PacketClass): int { OptionOr(packet, Direction, BOTH) }
  function ProtocolOf(packet: PacketClass): int { OptionOr(packet, Protocol, PROTOCOL_NONE) }
  predicate Overrides(packet: PacketClass) { OptionOr(packet, Override, 0) != 0 }

  /** `direction & Direction.BOTH == Direction.BOTH`, for any Python int. */
  predicate IsBoth(direction: int) { direction % 4 == 3 }

  /** The directions register_packet files a class under. */
  function RegisterDirections(direction: int): (ds: seq<int>)
    ensures IsBoth(direction) ==> ds == [SEND, RECV, BOTH]
    ensures !IsBoth(direction) ==> ds == [direction]
  {
    if IsBoth(direction) then [SEND, RECV, BOTH] else [direction]
  }

  /** One pass of the register_packet loop: a taken id stays (same class or a collision) unless overridden. */
  function RegisterOne(all: Tables, packet: PacketClass, direction: int): Tables {
    if packet.pid in Table(all, ProtocolOf(packet), direction) && !Overrides(packet) then all
    else Store(all, ProtocolOf(packet), direction, packet.pid, packet)
  }

  function RegisterAll(all: Tables, packet: PacketClass, directions: seq<int>): Tables
    decreases |directions|
  {
    if directions == [] then all
    else RegisterAll(RegisterOne(all, packet, directions[0]), packet, directions[1..])
  }

  function RegisterSpec(all: Tables, packet: PacketClass): Tables {
    RegisterAll(all, packet, RegisterDirections(DirectionOf(packet)))
  }

  /** get_packets_dict: both directions merged (RECV over SEND), or only BOTH, or the one direction. */
  function PacketsDictSpec(all: Tables, protocol: int, direction: int, onlyBoth: bool): map<int, PacketClass> {
    UpdateAll(map[], all, protocol, QueryDirections(direction, onlyBoth))
  }

  function QueryDirections(direction: int, onlyBoth: bool): (ds: seq<int>)
    ensures IsBoth(direction) && onlyBoth ==> ds == [BOTH]
    ensures IsBoth(direction) && !onlyBoth ==> ds == [SEND, RECV]
    ensures !IsBoth(direction) ==> ds == [direction]
  {
    if IsBoth(direction) then (if onlyBoth then [BOTH] else [SEND, RECV]) else [direction]
  }

  /** `packets.update(...)` for each direction in turn. */
  function UpdateAll(packets: map<int, PacketClass>, all: Tables, protocol: int, directions: seq<int>)
    : map<int, PacketClass>
    decreases |directions|
  {
    if directions == [] then packets
    else UpdateAll(packets + Table(all, protocol, directions[0]), all, protocol, directions[1..])
  }

  /** get_packet: `.get(pid)`, None when the id is not filed. */
  function GetPacketSpec(all: Tables, protocol: int, direction: int, pid: int): (r: Option<PacketClass>)
    ensures r.Some? <==> pid in Table(all, protocol, direction)
    ensures r.Some? ==> r.value == Table(all, protocol, direction)[pid]
  {
    var table := Table(all, protocol, direction);
    if pid in table then Some(table[pid]) else None
  }

  class PacketRegistry {
    var allPackets: Tables

    constructor ()
      ensures allPackets == map[]
    {
      allPackets := map[];
    }

    method RegisterPacket(packet: PacketClass)
      modifies this
      ensures allPackets == RegisterSpec(old(allPackets), packet)
    {
      var directions := RegisterDirections(DirectionOf(packet));
      var protocol := ProtocolOf(packet);
      ghost var start := allPackets;
      assert directions[0..] == directions;
      for k := 0 to |directions|
        invariant RegisterSpec(start, packet) == RegisterAll(allPackets, packet, directions[k..])
      {
        var direction := directions[k];
        assert directions[k..][1..] == directions[k + 1..];
        if packet.pid in Table(allPackets, protocol, direction) && !Overrides(packet) {
          // the same class again, or a colliding one that is not registered
          continue;
        }
        allPackets := Store(allPackets, protocol, direction, packet.pid, packet);
      }
      assert directions[|directions|..] == [];
    }

    method GetPacketsDict(protocol: int, direction: int, onlyBoth: bool) returns (packets: map<int, PacketClass>)
      ensures packets == PacketsDictSpec(allPackets, protocol, direction, onlyBoth)
    {
      packets := map[];
      var directions := QueryDirections(direction, onlyBoth);
      assert directions[0..] == directions;
      for k := 0 to |directions|
        invariant PacketsDictSpec(allPackets, protocol, direction, onlyBoth)
               == UpdateAll(packets, allPackets, protocol, directions[k..])
      {
        assert directions[k..][1..] == directions[k + 1..];
        packets := packets + Table(allPackets, protocol, directions[k]);
      }
      assert directions[|directions|..] == [];
    }

    /** get_packets: the classes of get_packets_dict (their order is not modelled). */
    method GetPackets(protocol: int, direction: int, onlyBoth: bool) returns (r: set<PacketClass>)
      ensures var d := PacketsDictSpec(allPackets, protocol, direction, onlyBoth);
              forall c :: c in r <==> exists pid :: pid in d && d[pid] == c
    {
      var d := GetPacketsDict(protocol, direction, onlyBoth);
      r := set pid | pid in d :: d[pid];
    }

    function GetPacket(protocol: int, direction: int, pid: int): (r: Option<PacketClass>)
      reads this
      ensures r == GetPacketSpec(allPackets, protocol, direction, pid)
    {
      GetPacketSpec(allPackets, protocol, direction, pid)
    }

    function GetRegisteredPacket(packet: PacketClass): (r: Option<PacketClass>)
      reads this
      ensures r == GetPacketSpec(allPackets, ProtocolOf(packet), DirectionOf(packet), packet.pid)
    {
      GetPacket(ProtocolOf(packet), DirectionOf(packet), packet.pid)
    }
  }

  // ---------------------------------------------------------------- properties

  /** Registering under a list of directions touches only those tables of the packet's protocol. */
  lemma {:induction false} RegisterAllFrame(all: Tables, packet: PacketClass, directions: seq<int>, p: int, d: int)
    requires p != ProtocolOf(packet) || d !in directions
    ensures Table(RegisterAll(all, packet, directions), p, d) == Table(all, p, d)
    decreases |directions|
  {
    if directions != [] {
      RegisterAllFrame(RegisterOne(all, packet, directions[0]), packet, directions[1..], p, d);
    }
  }

  /**
   * After registration, each listed direction files the packet's id: the packet itself,
   * unless the id was already taken and the packet does not override. Other ids keep
   * their classes.
   */
  lemma {:induction false} RegisterAllEffect(all: Tables, packet: PacketClass, directions: seq<int>, d: int)
    requires d in directions
    requires forall i, j :: 0 <= i < j < |directions| ==> directions[i] != directions[j]
    ensures var before := Table(all, ProtocolOf(packet), d);
            var after := Table(RegisterAll(all, packet, directions), ProtocolOf(packet), d);
            after == (if packet.pid in before && !Overrides(packet) then before else before[packet.pid := packet])
    decreases |directions|
  {
    if directions[0] == d {
      assert d !in directions[1..];
      RegisterAllFrame(RegisterOne(all, packet, d), packet, directions[1..], ProtocolOf(packet), d);
    } else {
      assert d in directions[1..];
      RegisterAllEffect(RegisterOne(all, packet, directions[0]), packet, directions[1..], d);
    }
  }

  /** register_packet files the class under each of its directions, and nowhere else. */
  lemma RegisterEffect(all: Tables, packet: PacketClass, p: int, d: int)
    ensures var before := Table(all, p, d);
            var after := Table(RegisterSpec(all, packet), p, d);
            if p == ProtocolOf(packet) && d in RegisterDirections(DirectionOf(packet)) then
              after == (if packet.pid in before && !Overrides(packet) then before else before[packet.pid := packet])
            else after == before
  {
    var directions := RegisterDirections(DirectionOf(packet));
    if p == ProtocolOf(packet) && d in directions {
      RegisterAllEffect(all, packet, directions, d);
    } else {
      RegisterAllFrame(all, packet, directions, p, d);
    }
  }

  /**
   * get_packets_dict: a query for both directions merges the SEND and RECV tables, RECV
   * winning on a shared id; only_both gives the BOTH table; any other direction its own.
   */
  lemma PacketsDictContents(all: Tables, protocol: int, direction: int, onlyBoth: bool)
    ensures var r := PacketsDictSpec(all, protocol, direction, onlyBoth);
            if !IsBoth(direction) then r == Table(all, protocol, direction)
            else if onlyBoth then r == Table(all, protocol, BOTH)
            else (r.Keys == Table(all, protocol, SEND).Keys + Table(all, protocol, RECV).Keys
                  && forall pid :: pid in r ==>
                       r[pid] == if pid in Table(all, protocol, RECV) then Table(all, protocol, RECV)[pid]
                                 else Table(all, protocol, SEND)[pid])
  {
    var ds := QueryDirections(direction, onlyBoth);
    var r := PacketsDictSpec(all, protocol, direction, onlyBoth);
    var first := map[] + Table(all, protocol, ds[0]);
    assert first == Table(all, protocol, ds[0]);
    assert r == UpdateAll(first, all, protocol, ds[1..]);
    if IsBoth(direction) && !onlyBoth {
      assert ds[1..] == [RECV] && ds[1..][1..] == [];
      assert r == UpdateAll(first + Table(all, protocol, RECV), all, protocol, []);
    } else {
      assert ds[1..] == [];
    }
  }

  /**
   * A registered class is found again by get_registered_packet, unless its id was taken
   * first. (A direction such as 7, which `& BOTH` reads as both, is filed under SEND, RECV
   * and BOTH but looked up under 7, so it is excluded.)
   */
  lemma RegisterThenGet(all: Tables, packet: PacketClass)
    requires DirectionOf(packet) == BOTH || !IsBoth(DirectionOf(packet))
    ensures var before := GetPacketSpec(all, ProtocolOf(packet), DirectionOf(packet), packet.pid);
            GetPacketSpec(RegisterSpec(all, packet), ProtocolOf(packet), DirectionOf(packet), packet.pid)
            == if before.Some? && !Overrides(packet) then before else Some(packet)
  {
    RegisterEffect(all, packet, ProtocolOf(packet), DirectionOf(packet));
  }

  lemma RegisterOneKeeps(all: Tables, packet: PacketClass, d: int)
    requires packet.pid in Table(all, ProtocolOf(packet), d)
    requires !Overrides(packet) || Table(all, ProtocolOf(packet), d)[packet.pid] == packet
    ensures RegisterOne(all, packet, d) == all
  {
    var p := ProtocolOf(packet);
    if Overrides(packet) {
      assert Table(all, p, d)[packet.pid := packet] == Table(all, p, d);
      assert all[p][d := all[p][d]] == all[p];
    }
  }

  lemma {:induction false} RegisterAllKeeps(all: Tables, packet: PacketClass, directions: seq<int>)
    requires forall k :: 0 <= k < |directions| ==> RegisterOne(all, packet, directions[k]) == all
    ensures RegisterAll(all, packet, directions) == all
    decreases |directions|
  {
    if directions != [] {
      assert RegisterOne(all, packet, directions[0]) == all;
      RegisterAllKeeps(all, packet, directions[1..]);
    }
  }

  /** Registering the same class twice changes nothing the second time. */
  lemma RegisterIdempotent(all: Tables, packet: PacketClass)
    ensures RegisterSpec(RegisterSpec(all, packet), packet) == RegisterSpec(all, packet)
  {
    var once := RegisterSpec(all, packet);
    var directions := RegisterDirections(DirectionOf(packet));
    forall k | 0 <= k < |directions| ensures RegisterOne(once, packet, directions[k]) == once {
      RegisterEffect(all, packet, ProtocolOf(packet), directions[k]);
      RegisterOneKeeps(once, packet, directions[k]);
    }
    RegisterAllKeeps(once, packet, directions);
  }
}
