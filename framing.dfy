/**
 * The stream framing of libopenttd/packets/packetsocket.py: every packet travels behind a
 * 3-byte OpenTTDPacket header (a little-endian u16 total length that counts the header,
 * then a u8 packet id); a socket appends what it receives to a read buffer, drains every
 * complete frame from it and keeps the partial tail for the next read.
 */
module Framing {
  import opened Common
  import opened PyStruct
  import opened Fields
  import opened Schema
  import opened Codec
  import opened Registry
  import opened Packet
  import opened Builder

  // ---------------------------------------------------------------- the header class

  /** OpenTTDPacket's two fields (UInt16Field and UInt8Field: struct codes 'H' and 'B'). */
  const LengthField := Field("length", 1, UShortKind, 0, false, VNone)
  const IdField := Field("packet_id", 2, UByteKind, 0, false, VNone)

  /** The one parsing field the two header fields merge into. */
  const HeaderGroup := ParsingField(LengthField, [IdField], [UShort, UByte], 3, 2)

  /**
   * OpenTTDPacket as the class statement leaves it: prepared, protocol NONE, direction BOTH.
   * Its options are the PacketOptions defaults: its own Meta restates protocol NONE and
   * direction BOTH, and `abstract` is not among OPTIONS_INHERITED (base.py:14-16), so the
   * abstract flag of Packet's Meta (packet.py:62-63) does not pass down and the class is
   * prepared. Its visible `Meta` is Packet's, whose abstract flag was reset when Packet was
   * created (base.py:201-203), because the class's own Meta is popped from its attributes.
   */
  const HeaderClass := PacketClass("OpenTTDPacket", -1, InitialOptions, Some(map[Abstract := 0]),
                                   [LengthField, IdField], [LengthField, IdField], [HeaderGroup], true)

  const HeaderSize := 3

  /** `io.DEFAULT_BUFFER_SIZE / 2`: the most one recv_into can hand over. */
  const BufferSize := 4096

  lemma ParseOne(ch: char, code: Code)
    requires CodeOf(ch) == Some(code)
    ensures ParseCodes([ch]) == Success([code])
  {
    assert [ch][0] == ch && [ch][1..] == [];
    assert ParseCodes([]) == Success([]);
    assert [code] + [] == [code];
  }

  lemma HeaderCodes()
    ensures ParseCodes("H") == Success([UShort]) && ParseCodes("B") == Success([UByte])
    ensures GroupFormat([LengthField, IdField]) == "HB" && ParseCodes("HB") == Success([UShort, UByte])
    ensures Size([UShort]) == 2 && Size([UByte]) == 1 && Size([UShort, UByte]) == 3
  {
    ParseOne('H', UShort);
    ParseOne('B', UByte);
    assert "H" == ['H'] && "B" == ['B'];
    var hb: string := ['H', 'B'];
    assert hb[0] == 'H' && hb[1..] == ['B'];
    assert ParseCodes(hb) == Success([UShort] + [UByte]);
    assert [UShort] + [UByte] == [UShort, UByte];
    assert "HB" == hb;
    var fs := [LengthField, IdField];
    assert fs[1..] == [IdField] && [IdField][1..] == [];
    assert GroupFormat([]) == "";
    assert GroupFormat([IdField]) == "B" + "";
    assert GroupFormat(fs) == "H" + "B";
    assert "H" + "B" == hb;
    assert [UShort, UByte][1..] == [UByte] && [UByte][1..] == [] && [UShort][1..] == [];
    assert Size([]) == 0;
  }

  lemma HeaderMerge()
    ensures SortByOrdering([LengthField, IdField]) == [LengthField, IdField]
    ensures MergeRuns(SameVersionStruct, [LengthField, IdField]) == [ParsingField(LengthField, [IdField], [], 0, 0)]
  {
    var fs := [LengthField, IdField];
    assert fs[1..] == [IdField] && [IdField][1..] == [];
    assert SortByOrdering([IdField]) == InsertByOrdering(IdField, SortByOrdering([]));
    assert SortByOrdering(fs) == InsertByOrdering(LengthField, [IdField]);
    var first := [StartGroup(LengthField)];
    var merged := [ParsingField(LengthField, [IdField], [], 0, 0)];
    assert MergeFrom(SameVersionStruct, fs, []) == MergeFrom(SameVersionStruct, [IdField], [] + first);
    assert [] + first == first;
    assert Last(first) == StartGroup(LengthField) && |first| - 1 == 0 && first[..0] == [];
    assert CanMerge(SameVersionStruct, LengthField, IdField);
    assert Last(first).neighbours + [IdField] == [IdField];
    assert StartGroup(LengthField).(neighbours := [IdField]) == merged[0];
    assert first[..0] + [Last(first).(neighbours := Last(first).neighbours + [IdField])] == merged;
    assert MergeFrom(SameVersionStruct, [IdField], first) == MergeFrom(SameVersionStruct, [], merged);
  }

  lemma HeaderCounts()
    ensures TotalCount([LengthField, IdField]) == 2
    ensures FieldSize(LengthField) == Some(2) && FieldSize(IdField) == Some(1)
    ensures SizeSum([LengthField, IdField]) == 3
  {
    HeaderCodes();
    var fs := [LengthField, IdField];
    assert fs[1..] == [IdField] && [IdField][1..] == [];
    assert TotalCount([]) == 0 && SizeSum([]) == 0;
    assert TotalCount([IdField]) == 1;
    assert SizeSum([IdField]) == 1;
  }

  /** The header class is what preparing its two fields gives, and it is fixed-length: 3 bytes. */
  lemma HeaderPrepared()
    ensures PreparedFrom(HeaderClass)
    ensures IsFixedLength(HeaderClass) && GetPacketSize(HeaderClass) == HeaderSize
    ensures AllWellFormed(HeaderClass.parsingFields) && IsPrepared(HeaderGroup)
    ensures VersionField(HeaderClass.fields) == None
  {
    var fs := [LengthField, IdField];
    HeaderCodes();
    HeaderMerge();
    HeaderCounts();
    var g := ParsingField(LengthField, [IdField], [], 0, 0);
    assert Members(g) == fs && Members(HeaderGroup) == fs;
    assert BuildStruct("HB") == Success([UShort, UByte]);
    assert PrepareGroupSpec(g) == Success(HeaderGroup);
    assert [g][1..] == [] && PrepareAllSpec([]) == Success([]);
    assert [HeaderGroup] + [] == [HeaderGroup];
    assert PrepareAllSpec([g]) == Success([HeaderGroup]);
    assert PrepareGroupSpec(HeaderGroup) == Success(HeaderGroup);
    assert VersionField([LengthField]) == None;
  }

  /** The frame length a header announces: its first two bytes, little-endian. */
  function FrameLength(header: seq<byte>): nat
    requires |header| == HeaderSize
  {
    header[0] as int + 256 * header[1] as int
  }

  lemma HeaderUnpack(header: seq<byte>)
    requires |header| == HeaderSize
    ensures Unpack([UShort, UByte], header, 0) == Success([VInt(FrameLength(header)), VInt(header[2])])
  {
    HeaderCodes();
    assert Width(UShort) == 2 && Width(UByte) == 1;
    assert [UShort, UByte][0] == UShort && [UShort, UByte][1..] == [UByte];
    assert [UByte][0] == UByte && [UByte][1..] == [];
    assert header[0..3] == header;
    var tail := header[2..];
    assert tail[..1] == [header[2]] && tail[1..] == [];
    assert FromLittleEndian([header[2]]) == header[2] + 256 * FromLittleEndian([]);
    assert UnpackExact([], []) == [];
    var b := UnpackOne(UByte, [header[2]]);
    assert b == VInt(header[2]);
    var a := UnpackOne(UShort, header[..2]);
    assert header[..2][1..] == [header[1]] && [header[1]][1..] == [];
    assert FromLittleEndian([header[1]]) == header[1] + 256 * FromLittleEndian([]);
    assert FromLittleEndian(header[..2]) == header[0] + 256 * FromLittleEndian([header[1]]);
    assert a == VInt(FrameLength(header));
    assert UnpackExact([UByte], tail) == [b] + [];
    assert UnpackExact([UShort, UByte], header) == [a] + UnpackExact([UByte], tail);
    assert [a] + ([b] + []) == [a, b];
  }

  lemma HeaderAssign(length: nat, pid: nat)
    ensures AssignFrom([LengthField, IdField], [VInt(length), VInt(pid)], 0, map[])
            == Success(map["length" := VInt(length), "packet_id" := VInt(pid)])
  {
    var fs := [LengthField, IdField];
    var items := [VInt(length), VInt(pid)];
    assert fs[1..] == [IdField] && [IdField][1..] == [];
    assert MemberValue(LengthField, items, 0) == VInt(length);
    assert MemberValue(IdField, items, 1) == VInt(pid);
    var m1 := map["length" := VInt(length)];
    assert AssignFrom(fs, items, 0, map[]) == AssignFrom([IdField], items, 1, m1);
    assert AssignFrom([IdField], items, 1, m1) == AssignFrom([], items, 2, m1["packet_id" := VInt(pid)]);
  }

  lemma HeaderRead(header: seq<byte>)
    requires |header| == HeaderSize
    ensures WellFormed(HeaderGroup)
    ensures ReadBytesSpec(HeaderGroup, header, 0)
            == Success((map["length" := VInt(FrameLength(header)), "packet_id" := VInt(header[2])], HeaderSize))
  {
    HeaderUnpack(header);
    HeaderAssign(FrameLength(header), header[2]);
    assert Members(HeaderGroup) == [LengthField, IdField];
  }

  lemma HeaderNames()
    ensures NamesOf(HeaderClass.fields) == {"length", "packet_id"}
  {
    assert HeaderClass.fields[0].name == "length" && HeaderClass.fields[1].name == "packet_id";
  }

  /** OpenTTDPacket's from_data on any 3 bytes: the u16 length, then the u8 packet id. */
  lemma HeaderDecode(header: seq<byte>)
    requires |header| == HeaderSize
    ensures AllWellFormed(HeaderClass.parsingFields)
    ensures FromDataSpec(HeaderClass, header, 0, None)
            == Success((map["length" := VInt(FrameLength(header)), "packet_id" := VInt(header[2])], map[]))
  {
    HeaderPrepared();
    HeaderRead(header);
    HeaderNames();
    var read := map["length" := VInt(FrameLength(header)), "packet_id" := VInt(header[2])];
    var gs := [HeaderGroup];
    assert gs[0] == HeaderGroup && gs[1..] == [];
    assert !Skipped(HeaderGroup, VInt(-1));
    assert DefaultVersionOf(HeaderClass) == -1;
    assert NextExtra(None, read, map[]) == map[];
    assert map[] + read == read;
    assert DecodeFrom(gs, header, 0, map[], -1, None, map[])
           == DecodeFrom([], header, 3, map[], -1, None, map[] + read);
    var inst := map n | n in NamesOf(HeaderClass.fields) :: Lookup(read, n);
    assert inst == read;
  }

  lemma HeaderInit(length: int, pid: int)
    ensures var info := map["length" := VInt(length), "packet_id" := VInt(pid)];
            InitSpec(HeaderClass, [], info) == Success(info)
  {
    HeaderNames();
    var info := map["length" := VInt(length), "packet_id" := VInt(pid)];
    var fs := HeaderClass.fields;
    assert fs[..1] == [LengthField] && [LengthField][..0] == [];
    assert LeadingCount([]) == 0 && Bind(HeaderClass.fieldsSorted, []) == map[];
    assert map[] + info == info;
    assert Assign([], info) == map[];
    assert Assign([LengthField], info) == map["length" := VInt(length)];
    assert Assign(fs, info) == info;
  }

  lemma PackByte(pid: byte)
    ensures PackAll([UByte], [VInt(pid)]) == Success([pid])
  {
    var l := [UByte];
    var v := [VInt(pid)];
    assert l[0] == UByte && v[0] == VInt(pid) && l[1..] == [] && v[1..] == [];
    assert Pow256(1) == 256;
    var h := PackOne(UByte, VInt(pid));
    assert h == Success(LittleEndian(pid, Width(UByte)));
    assert Width(UByte) == 1 && pid % 256 == pid && LittleEndian(pid / 256, 0) == [];
    assert [pid % 256] + [] == [pid];
    assert LittleEndian(pid, 1) == [pid % 256] + LittleEndian(pid / 256, 0);
    var t := PackAll([], []);
    assert t == Success([]);
    assert PackAll(l, v) == Success(h.value + t.value);
  }

  lemma HeaderPack(length: int, pid: int)
    ensures Pack([UShort, UByte], [VInt(length), VInt(pid)])
            == if 0 <= length < 0x1_0000 && 0 <= pid < 0x100 then Success(LittleEndian(length, 2) + [pid])
               else Failure(StructError)
  {
    var layout := [UShort, UByte];
    var values := [VInt(length), VInt(pid)];
    assert layout[0] == UShort && values[0] == VInt(length) && layout[1..] == [UByte] && values[1..] == [VInt(pid)];
    assert Pow256(2) == 0x1_0000 && Pow256(1) == 0x100;
    assert Width(UShort) == 2 && Width(UByte) == 1 && !IsSigned(UShort) && !IsSigned(UByte);
    assert AsInteger(VInt(pid)) == Some(pid) && AsInteger(VInt(length)) == Some(length);
    var tail := PackAll([UByte], [VInt(pid)]);
    if 0 <= pid < 0x100 {
      PackByte(pid);
    } else {
      assert PackOne(UByte, VInt(pid)) == Failure(StructError);
      assert [UByte][0] == UByte && [VInt(pid)][0] == VInt(pid);
      assert tail.Failure?;
    }
    var head := PackOne(UShort, VInt(length));
    if 0 <= length < 0x1_0000 {
      assert head == Success(LittleEndian(length, 2));
    } else {
      assert head == Failure(StructError);
    }
  }

  lemma HeaderGather(length: int, pid: int)
    ensures var info := map["length" := VInt(length), "packet_id" := VInt(pid)];
            WellFormed(HeaderGroup)
            && GatherFrom([LengthField, IdField], info, []) == Success([VInt(length), VInt(pid)])
  {
    var info := map["length" := VInt(length), "packet_id" := VInt(pid)];
    var fs := [LengthField, IdField];
    assert fs[0] == LengthField && fs[1..] == [IdField] && [IdField][0] == IdField && [IdField][1..] == [];
    assert Lookup(info, "length") == VInt(length) && Lookup(info, "packet_id") == VInt(pid);
    assert MemberItems(LengthField, VInt(length)) == Success([VInt(length)]);
    assert MemberItems(IdField, VInt(pid)) == Success([VInt(pid)]);
    var one := [] + [VInt(length)];
    assert GatherFrom(fs, info, []) == GatherFrom([IdField], info, one);
    assert GatherFrom([IdField], info, one) == GatherFrom([], info, one + [VInt(pid)]);
    assert one + [VInt(pid)] == [VInt(length), VInt(pid)];
  }

  /** to_data of OpenTTDPacket: its one parsing field's bytes, whatever the extra dictionary. */
  lemma HeaderToData(info: Instance)
    requires info.Keys == NamesOf(HeaderClass.fields)
    ensures AllWellFormed(HeaderClass.parsingFields)
    ensures Write(HeaderClass, info, None) == WriteBytesSpec(HeaderGroup, info)
  {
    assert WellFormed(HeaderGroup);
    var data := DataOf(HeaderClass.fields, info);
    assert data == info;
    var gs := HeaderClass.parsingFields;
    assert gs[0] == HeaderGroup && gs[1..] == [];
    var v := VInt(DefaultVersionOf(HeaderClass));
    assert !Skipped(HeaderGroup, v);
    assert Encode([], data, Some(v)) == Success([]);
    var packed := WriteBytesSpec(HeaderGroup, data);
    if packed.Success? {
      assert packed.value + [] == packed.value;
    }
    assert Encode(gs, data, Some(v)) == packed;
  }

  /**
   * OpenTTDPacket(length=..., packet_id=...).write(): the u16 length then the u8 id, or a
   * struct.error when either does not fit its code.
   */
  lemma HeaderEncode(length: int, pid: int)
    ensures AllWellFormed(HeaderClass.parsingFields)
    ensures var info := map["length" := VInt(length), "packet_id" := VInt(pid)];
            InitSpec(HeaderClass, [], info) == Success(info)
            && Write(HeaderClass, info, None)
               == if 0 <= length < 0x1_0000 && 0 <= pid < 0x100 then Success(LittleEndian(length, 2) + [pid])
                  else Failure(StructError)
  {
    HeaderInit(length, pid);
    HeaderNames();
    HeaderGather(length, pid);
    HeaderPack(length, pid);
    var info := map["length" := VInt(length), "packet_id" := VInt(pid)];
    HeaderToData(info);
    assert Members(HeaderGroup) == [LengthField, IdField];
    assert WriteBytesSpec(HeaderGroup, info) == Pack([UShort, UByte], [VInt(length), VInt(pid)]);
  }

  // ---------------------------------------------------------------- decodable tables

  /** A packet table whose every class can run from_data: all its parsing fields are well formed. */
  predicate Decodable(reg: map<int, PacketClass>) {
    forall pid :: pid in reg ==> AllWellFormed(reg[pid].parsingFields)
  }

  ghost predicate TablesDecodable(all: Tables) {
    forall p, d :: Decodable(Table(all, p, d))
  }

  lemma {:induction false} RegisterAllDecodable(all: Tables, packet: PacketClass, directions: seq<int>)
    requires TablesDecodable(all) && AllWellFormed(packet.parsingFields)
    ensures TablesDecodable(RegisterAll(all, packet, directions))
    decreases |directions|
  {
    if directions != [] {
      var next := RegisterOne(all, packet, directions[0]);
      assert TablesDecodable(next) by {
        forall p, d ensures Decodable(Table(next, p, d)) {
          if next != all {
            assert Decodable(Table(all, p, d));
          }
        }
      }
      RegisterAllDecodable(next, packet, directions[1..]);
    }
  }

  /** register_packet keeps every filed class decodable when the new one is. */
  lemma RegisterKeepsDecodable(all: Tables, packet: PacketClass)
    requires TablesDecodable(all) && AllWellFormed(packet.parsingFields)
    ensures TablesDecodable(RegisterSpec(all, packet))
  {
    RegisterAllDecodable(all, packet, RegisterDirections(DirectionOf(packet)));
  }

  /** A class statement leaves the registry decodable: the classes it registers are prepared. */
  lemma DefineKeepsDecodable(all: Tables, decl: Declaration, parents: seq<PacketClass>)
    requires TablesDecodable(all)
    ensures TablesDecodable(RegistryAfter(all, decl, parents))
  {
    var r := DefineSpec(decl, parents);
    if Registers(decl, parents) && r.Success? && r.value.Some? {
      assert !Flag(decl.meta, Abstract);
      assert r.value.value.prepared;
      BuiltClassReady(decl, parents);
      var cls := r.value.value;
      assert AllWellFormed(cls.parsingFields) by {
        forall j | 0 <= j < |cls.parsingFields| ensures WellFormed(cls.parsingFields[j]) {
          assert IsPrepared(cls.parsingFields[j]);
        }
      }
      RegisterKeepsDecodable(all, cls);
    }
  }

  lemma {:induction false} UpdateAllDecodable(packets: map<int, PacketClass>, all: Tables, protocol: int,
                                              directions: seq<int>)
    requires Decodable(packets) && TablesDecodable(all)
    ensures Decodable(UpdateAll(packets, all, protocol, directions))
    decreases |directions|
  {
    if directions != [] {
      var next := packets + Table(all, protocol, directions[0]);
      assert Decodable(Table(all, protocol, directions[0]));
      UpdateAllDecodable(next, all, protocol, directions[1..]);
    }
  }

  /** get_packets_dict of decodable tables is a decodable table. */
  lemma PacketsDictDecodable(all: Tables, protocol: int, direction: int, onlyBoth: bool)
    requires TablesDecodable(all)
    ensures Decodable(PacketsDictSpec(all, protocol, direction, onlyBoth))
  {
    UpdateAllDecodable(map[], all, protocol, QueryDirections(direction, onlyBoth));
  }

  // ---------------------------------------------------------------- draining a read buffer

  /**
   * A frame starts at `index`: a whole header, announcing a length that covers at least the
   * header and no more than the bytes at hand.
   */
  predicate FrameAt(buf: seq<byte>, index: nat) {
    index + HeaderSize <= |buf|
    && HeaderSize <= Announced(buf, index)
    && index + Announced(buf, index) <= |buf|
  }

  /** The length the header at `index` announces. */
  function Announced(buf: seq<byte>, index: nat): nat
    requires index + HeaderSize <= |buf|
  {
    buf[index] as int + 256 * buf[index + 1] as int
  }

  /** One frame cut from the stream: the id its header names and the body after the header. */
  datatype RawFrame = RawFrame(pid: byte, body: seq<byte>)

  /**
   * The frames of `buf` from `index` on, as the recv_packet loop cuts them, and the index of
   * the first byte not consumed, which the socket keeps for the next read. Every frame
   * consumed moves the index on by at least a header.
   */
  function Split(buf: seq<byte>, index: nat): (r: (seq<RawFrame>, nat))
    requires index <= |buf|
    ensures index <= r.1 <= |buf|
    ensures r.1 == index || index + HeaderSize <= r.1
    decreases |buf| - index
  {
    if !FrameAt(buf, index) then ([], index)
    else
      var end := index + Announced(buf, index);
      var rest := Split(buf, end);
      ([RawFrame(buf[index + 2], buf[index + HeaderSize..end])] + rest.0, rest.1)
  }

  /** Splitting stops only where no frame starts: what is kept holds no complete frame at its head. */
  lemma {:induction false} SplitStop(buf: seq<byte>, index: nat)
    requires index <= |buf|
    ensures !FrameAt(buf, Split(buf, index).1)
    decreases |buf| - index
  {
    if FrameAt(buf, index) {
      SplitStop(buf, index + Announced(buf, index));
    }
  }

  /** Bytes before the split region change nothing but the positions. */
  lemma {:induction false} SplitShift(prefix: seq<byte>, buf: seq<byte>, index: nat)
    requires index <= |buf|
    ensures Split(prefix + buf, |prefix| + index) == (Split(buf, index).0, |prefix| + Split(buf, index).1)
    decreases |buf| - index
  {
    var whole := prefix + buf;
    var i := |prefix| + index;
    if index + HeaderSize <= |buf| {
      assert whole[i] == buf[index] && whole[i + 1] == buf[index + 1] && whole[i + 2] == buf[index + 2];
    }
    if FrameAt(buf, index) {
      var end := index + Announced(buf, index);
      assert whole[i + HeaderSize..|prefix| + end] == buf[index + HeaderSize..end];
      SplitShift(prefix, buf, end);
    }
  }

  /** A frame complete in `buf` is the same frame once more bytes follow. */
  lemma FrameExtend(buf: seq<byte>, more: seq<byte>, index: nat)
    requires FrameAt(buf, index)
    ensures var end := index + Announced(buf, index);
            Split(buf + more, index)
            == ([RawFrame(buf[index + 2], buf[index + HeaderSize..end])] + Split(buf + more, end).0,
                Split(buf + more, end).1)
  {
    var whole := buf + more;
    var end := index + Announced(buf, index);
    assert whole[index] == buf[index] && whole[index + 1] == buf[index + 1] && whole[index + 2] == buf[index + 2];
    assert Announced(whole, index) == Announced(buf, index);
    assert FrameAt(whole, index);
    assert whole[index + HeaderSize..end] == buf[index + HeaderSize..end];
  }

  /** The bytes after `index` continue `buf` as `more` continues it. */
  predicate ExtendsFrom(buf: seq<byte>, more: seq<byte>, index: nat)
    requires index <= |buf|
  {
    var next := Split(buf[Split(buf, index).1..] + more, 0);
    Split(buf + more, index) == (Split(buf, index).0 + next.0, Split(buf, index).1 + next.1)
  }

  /** Where splitting `buf` stops, splitting the extended buffer goes on with what follows. */
  lemma SplitExtendStop(buf: seq<byte>, more: seq<byte>, index: nat)
    requires index <= |buf| && !FrameAt(buf, index)
    ensures ExtendsFrom(buf, more, index)
  {
    var prefix := buf[..index];
    var after := buf[index..] + more;
    assert buf + more == prefix + after && |prefix| == index;
    SplitShift(prefix, after, 0);
    var next := Split(after, 0);
    assert Split(buf, index) == ([], index);
    assert buf[Split(buf, index).1..] + more == after;
    assert [] + next.0 == next.0;
  }

  lemma SplitExtendFrame(buf: seq<byte>, more: seq<byte>, index: nat)
    requires FrameAt(buf, index)
    requires ExtendsFrom(buf, more, index + Announced(buf, index))
    ensures ExtendsFrom(buf, more, index)
  {
    var end := index + Announced(buf, index);
    FrameExtend(buf, more, index);
    var f := RawFrame(buf[index + 2], buf[index + HeaderSize..end]);
    SplitFrame(buf, index, end, f);
    var rest := Split(buf, end);
    ExtendOne(f, Split(buf, index), rest, Split(buf + more, index), Split(buf + more, end),
              Split(buf[rest.1..] + more, 0));
  }

  lemma ExtendOne(f: RawFrame, whole: (seq<RawFrame>, nat), rest: (seq<RawFrame>, nat),
                  big: (seq<RawFrame>, nat), bigRest: (seq<RawFrame>, nat), next: (seq<RawFrame>, nat))
    requires whole == ([f] + rest.0, rest.1) && big == ([f] + bigRest.0, bigRest.1)
    requires bigRest == (rest.0 + next.0, rest.1 + next.1)
    ensures big == (whole.0 + next.0, whole.1 + next.1)
  {
    assert [f] + (rest.0 + next.0) == [f] + rest.0 + next.0;
  }

  /**
   * More bytes after the buffer do not change the frames already complete in it; splitting
   * the extended buffer continues from where splitting the buffer stopped.
   */
  lemma {:induction false} SplitExtend(buf: seq<byte>, more: seq<byte>, index: nat)
    requires index <= |buf|
    ensures ExtendsFrom(buf, more, index)
    decreases |buf| - index
  {
    if FrameAt(buf, index) {
      SplitExtend(buf, more, index + Announced(buf, index));
      SplitExtendFrame(buf, more, index);
    } else {
      SplitExtendStop(buf, more, index);
    }
  }

  /** A packet recv_packet yields: an instance of the class filed under its frame's id. */
  datatype Received = Received(cls: PacketClass, inst: Instance)

  /** What one frame's body turns into: nothing for an unknown id or a body from_data refuses. */
  function Delivered(reg: map<int, PacketClass>, frame: RawFrame): (r: seq<Received>)
    requires Decodable(reg)
    ensures |r| <= 1
    ensures r != [] <==> frame.pid in reg && FromDataSpec(reg[frame.pid], frame.body, 0, None).Success?
    ensures r != [] ==> r[0] == Received(reg[frame.pid], FromDataSpec(reg[frame.pid], frame.body, 0, None).value.0)
  {
    if frame.pid !in reg then []
    else
      match FromDataSpec(reg[frame.pid], frame.body, 0, None)
      case Failure(_) => []
      case Success(d) => [Received(reg[frame.pid], d.0)]
  }

  function DeliverAll(reg: map<int, PacketClass>, frames: seq<RawFrame>): seq<Received>
    requires Decodable(reg)
  {
    if frames == [] then [] else Delivered(reg, frames[0]) + DeliverAll(reg, frames[1..])
  }

  lemma {:induction false} DeliverAllAppend(reg: map<int, PacketClass>, a: seq<RawFrame>, b: seq<RawFrame>)
    requires Decodable(reg)
    ensures DeliverAll(reg, a + b) == DeliverAll(reg, a) + DeliverAll(reg, b)
  {
    if a == [] {
      assert a + b == b;
    } else {
      assert (a + b)[0] == a[0] && (a + b)[1..] == a[1..] + b;
      DeliverAllAppend(reg, a[1..], b);
    }
  }

  /** The packets recv_packet yields from `buf`, and the index of the first byte it keeps. */
  function Drain(buf: seq<byte>, reg: map<int, PacketClass>): (r: (seq<Received>, nat))
    requires Decodable(reg)
    ensures r.1 <= |buf| && !FrameAt(buf, r.1)
    ensures |r.0| <= |Split(buf, 0).0|
  {
    SplitStop(buf, 0);
    DeliverAllLength(reg, Split(buf, 0).0);
    (DeliverAll(reg, Split(buf, 0).0), Split(buf, 0).1)
  }

  lemma {:induction false} DeliverAllLength(reg: map<int, PacketClass>, frames: seq<RawFrame>)
    requires Decodable(reg)
    ensures |DeliverAll(reg, frames)| <= |frames|
  {
    if frames != [] {
      DeliverAllLength(reg, frames[1..]);
    }
  }

  /**
   * Two reads deliver what one read of the same bytes would: the packets of the first read
   * followed by those of the second equal the packets of the concatenated stream, and the
   * bytes kept afterwards are the same.
   */
  lemma SplitReads(pending: seq<byte>, first: seq<byte>, second: seq<byte>, reg: map<int, PacketClass>)
    requires Decodable(reg)
    ensures var one := Drain(pending + first, reg);
            var kept := (pending + first)[one.1..];
            var two := Drain(kept + second, reg);
            var both := Drain(pending + first + second, reg);
            one.0 + two.0 == both.0 && (kept + second)[two.1..] == (pending + first + second)[both.1..]
  {
    var buf := pending + first;
    SplitExtend(buf, second, 0);
    var one := Split(buf, 0);
    var two := Split(buf[one.1..] + second, 0);
    DeliverAllAppend(reg, one.0, two.0);
    assert buf + second == buf[..one.1] + (buf[one.1..] + second);
  }

  /** The header at `index`, decoded as recv_packet decodes it: the announced length and the id. */
  lemma HeaderAt(buf: seq<byte>, index: nat)
    requires index + HeaderSize <= |buf|
    ensures AllWellFormed(HeaderClass.parsingFields)
    ensures FromDataSpec(HeaderClass, buf[index..index + HeaderSize], 0, None)
            == Success((map["length" := VInt(Announced(buf, index)), "packet_id" := VInt(buf[index + 2])], map[]))
  {
    var header := buf[index..index + HeaderSize];
    HeaderDecode(header);
    assert header[0] == buf[index] && header[1] == buf[index + 1] && header[2] == buf[index + 2];
  }

  /** Cutting one frame off the front of what remains. */
  lemma SplitFrame(buf: seq<byte>, index: nat, end: nat, frame: RawFrame)
    requires FrameAt(buf, index) && end == index + Announced(buf, index)
    requires frame == RawFrame(buf[index + 2], buf[index + HeaderSize..end])
    ensures Split(buf, index) == ([frame] + Split(buf, end).0, Split(buf, end).1)
  {
  }

  lemma DeliverAllSnoc(reg: map<int, PacketClass>, frames: seq<RawFrame>, frame: RawFrame)
    requires Decodable(reg)
    ensures DeliverAll(reg, frames + [frame]) == DeliverAll(reg, frames) + Delivered(reg, frame)
  {
    DeliverAllAppend(reg, frames, [frame]);
    assert [frame][1..] == [];
    assert DeliverAll(reg, [frame]) == Delivered(reg, frame) + DeliverAll(reg, []);
  }

  /**
   * The state of the recv_packet loop at `index`: the frames cut so far are the first ones
   * of the whole split, and `packets` are what they delivered.
   */
  ghost predicate DrainedTo(buf: seq<byte>, reg: map<int, PacketClass>, frames: seq<RawFrame>, index: nat,
                            packets: seq<Received>)
    requires Decodable(reg) && index <= |buf|
  {
    Split(buf, 0) == (frames + Split(buf, index).0, Split(buf, index).1) && packets == DeliverAll(reg, frames)
  }

  lemma DrainedStart(buf: seq<byte>, reg: map<int, PacketClass>)
    requires Decodable(reg)
    ensures DrainedTo(buf, reg, [], 0, [])
  {
    assert [] + Split(buf, 0).0 == Split(buf, 0).0;
  }

  /** One turn of the loop: the frame at `index` is cut off and its packet, if any, delivered. */
  lemma DrainedStep(buf: seq<byte>, reg: map<int, PacketClass>, frames: seq<RawFrame>, index: nat,
                    packets: seq<Received>, end: nat, frame: RawFrame)
    requires Decodable(reg) && index <= |buf| && DrainedTo(buf, reg, frames, index, packets)
    requires FrameAt(buf, index) && end == index + Announced(buf, index)
    requires frame == RawFrame(buf[index + 2], buf[index + HeaderSize..end])
    ensures DrainedTo(buf, reg, frames + [frame], end, packets + Delivered(reg, frame))
  {
    SplitFrame(buf, index, end, frame);
    DeliverAllSnoc(reg, frames, frame);
    CutOne(Split(buf, 0), Split(buf, index), Split(buf, end), frames, frame);
  }

  lemma CutOne(whole: (seq<RawFrame>, nat), here: (seq<RawFrame>, nat), next: (seq<RawFrame>, nat),
               frames: seq<RawFrame>, frame: RawFrame)
    requires whole == (frames + here.0, here.1) && here == ([frame] + next.0, next.1)
    ensures whole == ((frames + [frame]) + next.0, next.1)
  {
    assert frames + ([frame] + next.0) == (frames + [frame]) + next.0;
  }

  /** Where no frame starts the loop ends, having delivered the packets of the whole split. */
  lemma DrainedStop(buf: seq<byte>, reg: map<int, PacketClass>, frames: seq<RawFrame>, index: nat,
                    packets: seq<Received>)
    requires Decodable(reg) && index <= |buf| && DrainedTo(buf, reg, frames, index, packets)
    requires !FrameAt(buf, index)
    ensures packets == DeliverAll(reg, Split(buf, 0).0) && index == Split(buf, 0).1
  {
    assert frames + [] == frames;
  }

  /**
   * The header step of one turn of the recv_packet loop: None when fewer than three bytes
   * remain at `index`, otherwise the announced length and the packet id, decoded with the
   * header packet class.
   */
  method ReadHeader(buf: seq<byte>, index: nat) returns (header: Option<(nat, int)>)
    requires index <= |buf|
    ensures header.None? <==> |buf| < index + HeaderSize
    ensures header.Some? ==> header.value == (Announced(buf, index), buf[index + 2] as int)
  {
    HeaderPrepared();
    var packetSize := GetPacketSize(HeaderClass);
    if |buf| < index + packetSize {
      return None;
    }
    HeaderAt(buf, index);
    var info := FromData(HeaderClass, buf[index..index + packetSize], 0, None);
    assert info.value.0 == map["length" := VInt(Announced(buf, index)), "packet_id" := VInt(buf[index + 2])];
    return Some((info.value.0["length"].i, info.value.0["packet_id"].i));
  }

  /**
   * The body step of one turn of the recv_packet loop: the packet the frame's body decodes to
   * under the class registered for its id, or nothing when the id is not registered or the
   * decode fails.
   */
  method DeliverFrame(reg: map<int, PacketClass>, frame: RawFrame) returns (delivered: seq<Received>)
    requires Decodable(reg)
    ensures delivered == Delivered(reg, frame)
  {
    if frame.pid !in reg {
      return [];
    }
    var obj := FromData(reg[frame.pid], frame.body, 0, None);
    if obj.Failure? {
      return [];
    }
    return [Received(reg[frame.pid], obj.value.0)];
  }

  // ---------------------------------------------------------------- the socket

  class PacketSocket {
    /** Bytes received and not yet consumed by a complete frame. */
    var readBuffer: seq<byte>
    /** The view recv_packet drains, and how far it has got. */
    var mbuf: seq<byte>
    var mbufIndex: nat
    const protocol: int
    const direction: int
    /** The classes this socket decodes, by packet id. */
    const packetRegistry: map<int, PacketClass>

    predicate Valid()
      reads this
    {
      Decodable(packetRegistry) && mbufIndex <= |mbuf|
    }

    /**
     * PacketSocket(protocol=..., direction=...): protocol NONE and direction BOTH when not
     * given, the registry's classes for that protocol and direction, and nothing buffered.
     */
    constructor (registry: PacketRegistry, protocol: Option<int>, direction: Option<int>)
      requires TablesDecodable(registry.allPackets)
      ensures Valid()
      ensures this.protocol == protocol.GetOr(PROTOCOL_NONE) && this.direction == direction.GetOr(BOTH)
      ensures packetRegistry == PacketsDictSpec(registry.allPackets, this.protocol, this.direction, false)
      ensures readBuffer == [] && mbuf == [] && mbufIndex == 0
    {
      var p := if protocol.None? then PROTOCOL_NONE else protocol.value;
      var d := if direction.None? then BOTH else direction.value;
      var packets := registry.GetPacketsDict(p, d, false);
      PacketsDictDecodable(registry.allPackets, p, d, false);
      this.protocol := p;
      this.direction := d;
      packetRegistry := packets;
      readBuffer := [];
      mbuf := [];
      mbufIndex := 0;
    }

    /** buffered_read: what recv_into handed over is appended, and draining starts at 0. */
    method BufferedRead(received: seq<byte>) returns (read: nat)
      requires |received| <= BufferSize
      modifies this
      ensures read == |received|
      ensures readBuffer == old(readBuffer) + received && mbuf == readBuffer && mbufIndex == 0
    {
      read := |received|;
      if read != 0 {
        readBuffer := readBuffer + received;
      }
      mbuf := readBuffer;
      mbufIndex := 0;
    }

    /** buffered_read_end: only the bytes not consumed stay buffered. */
    method BufferedReadEnd()
      requires mbufIndex <= |mbuf|
      modifies this
      ensures mbuf == old(mbuf) && mbufIndex == old(mbufIndex)
      ensures readBuffer == mbuf[mbufIndex..]
    {
      readBuffer := mbuf[mbufIndex..];
    }

    /**
     * The loop of recv_packet over the view: from mbufIndex on, every complete frame is cut
     * off and its packet delivered; mbufIndex ends where the first incomplete frame starts.
     */
    method DrainView() returns (packets: seq<Received>)
      requires Valid() && mbufIndex == 0
      modifies this
      ensures Valid() && mbuf == old(mbuf) && readBuffer == old(readBuffer)
      ensures packets == DeliverAll(packetRegistry, Split(mbuf, 0).0) && mbufIndex == Split(mbuf, 0).1
    {
      packets := [];
      ghost var frames: seq<RawFrame> := [];
      DrainedStart(mbuf, packetRegistry);
      while true
        invariant mbuf == old(mbuf) && readBuffer == old(readBuffer)
        invariant mbufIndex <= |mbuf| && DrainedTo(mbuf, packetRegistry, frames, mbufIndex, packets)
        decreases |mbuf| - mbufIndex
      {
        var header := ReadHeader(mbuf, mbufIndex);
        if header.None? || |mbuf| < header.value.0 + mbufIndex || header.value.0 < HeaderSize {
          DrainedStop(mbuf, packetRegistry, frames, mbufIndex, packets);
          break;
        }
        var length := header.value.0;
        var frame := RawFrame(header.value.1 as byte, mbuf[mbufIndex + HeaderSize..mbufIndex + length]);
        DrainedStep(mbuf, packetRegistry, frames, mbufIndex, packets, mbufIndex + length, frame);
        mbufIndex := mbufIndex + length;
        frames := frames + [frame];
        var delivered := DeliverFrame(packetRegistry, frame);
        packets := packets + delivered;
      }
    }

    /**
     * recv_packet: one read, then every complete frame is taken from the buffer and its
     * packet delivered, and the partial tail is kept for the next call.
     */
    method RecvPacket(received: seq<byte>) returns (packets: seq<Received>)
      requires Valid() && |received| <= BufferSize
      modifies this
      ensures Valid()
      ensures var stream := old(readBuffer) + received;
              packets == Drain(stream, packetRegistry).0 && readBuffer == stream[Drain(stream, packetRegistry).1..]
    {
      var read := BufferedRead(received);
      packets := DrainView();
      BufferedReadEnd();
    }

    /** send_packet: the bytes handed to sendall, or the exception raised on the way. */
    method SendPacket(packet: Outgoing) returns (r: Result<seq<byte>>)
      requires AllWellFormed(packet.cls.parsingFields)
      ensures r == SendSpec(packet)
    {
      var inst: Instance;
      if packet.PacketType? {
        var made := Init(packet.cls, packet.args, packet.kwargs);
        if made.Failure? {
          return Failure(made.error);
        }
        inst := made.value;
      } else {
        inst := packet.inst;
      }
      var data := ToData(packet.cls, inst, None);
      if data.Failure? {
        return Failure(data.error);
      }
      HeaderPrepared();
      var info := map["length" := VInt(|data.value| + GetPacketSize(HeaderClass)), "packet_id" := VInt(packet.cls.pid)];
      var header := Init(HeaderClass, [], info);
      if header.Failure? {
        return Failure(header.error);
      }
      var written := ToData(HeaderClass, header.value, None);
      if written.Failure? {
        return Failure(written.error);
      }
      r := Success(written.value + data.value);
    }
  }

  // ---------------------------------------------------------------- sending

  /** What send_packet is given: a packet object, or a packet class with constructor arguments. */
  datatype Outgoing =
    | PacketObject(cls: PacketClass, inst: Instance)
    | PacketType(cls: PacketClass, args: seq<Value>, kwargs: map<string, Value>)

  /** The header a body of `data` for packet id `pid` travels behind, written before it. */
  function FrameSpec(pid: int, data: seq<byte>): Result<seq<byte>> {
    var info :- InitSpec(HeaderClass, [], map["length" := VInt(|data| + GetPacketSize(HeaderClass)),
                                              "packet_id" := VInt(pid)]);
    var header :- Write(HeaderClass, info, None);
    Success(header + data)
  }

  function SendSpec(packet: Outgoing): Result<seq<byte>>
    requires AllWellFormed(packet.cls.parsingFields)
  {
    var inst :- if packet.PacketType? then InitSpec(packet.cls, packet.args, packet.kwargs) else Success(packet.inst);
    var data :- Write(packet.cls, inst, None);
    FrameSpec(packet.cls.pid, data)
  }

  /**
   * The frame of a body: its total length (u16, little-endian) and the packet id (u8), then
   * the body; struct.error when the length or the id does not fit.
   */
  lemma FrameBytes(pid: int, data: seq<byte>)
    ensures FrameSpec(pid, data)
            == if |data| + HeaderSize < 0x1_0000 && 0 <= pid < 0x100
               then Success(LittleEndian(|data| + HeaderSize, 2) + [pid] + data)
               else Failure(StructError)
  {
    HeaderPrepared();
    HeaderEncode(|data| + HeaderSize, pid);
  }

  /** The bytes of a frame: its header announces the whole frame's length and its id. */
  lemma FrameParts(length: nat, pid: byte, data: seq<byte>, frame: seq<byte>, rest: seq<byte>, buf: seq<byte>)
    requires length == |data| + HeaderSize && length < 0x1_0000
    requires frame == LittleEndian(length, 2) + [pid] + data && buf == frame + rest
    ensures |frame| == length && FrameAt(buf, 0) && Announced(buf, 0) == length
            && buf[2] == pid && buf[HeaderSize..length] == data
  {
    var hi := length / 256;
    assert LittleEndian(length, 2) == [length % 256, hi % 256] by {
      assert LittleEndian(hi, 1) == [hi % 256] + LittleEndian(hi / 256, 0);
    }
    assert buf[0] == length % 256 && buf[1] == hi && buf[2] == pid;
    assert buf[HeaderSize..length] == data;
  }

  /** A frame the socket sends is cut from the stream as one frame, with its id and body. */
  lemma FrameThenSplit(pid: byte, data: seq<byte>, frame: seq<byte>, rest: seq<byte>)
    requires FrameSpec(pid, data) == Success(frame)
    ensures Split(frame + rest, 0) == ([RawFrame(pid, data)] + Split(rest, 0).0, |frame| + Split(rest, 0).1)
  {
    FrameBytes(pid, data);
    FrameSplitParts(pid, data, frame, rest);
  }

  lemma FrameSplitParts(pid: byte, data: seq<byte>, frame: seq<byte>, rest: seq<byte>)
    requires |data| + HeaderSize < 0x1_0000 && frame == LittleEndian(|data| + HeaderSize, 2) + [pid] + data
    ensures Split(frame + rest, 0) == ([RawFrame(pid, data)] + Split(rest, 0).0, |frame| + Split(rest, 0).1)
  {
    FrameParts(|data| + HeaderSize, pid, data, frame, rest, frame + rest);
    FrameHead(frame, rest, frame + rest, RawFrame(pid, data));
  }

  /** Cutting a complete frame off the head of a stream leaves the frames of what follows it. */
  lemma FrameHead(frame: seq<byte>, rest: seq<byte>, buf: seq<byte>, f: RawFrame)
    requires buf == frame + rest && FrameAt(buf, 0) && Announced(buf, 0) == |frame|
    requires f == RawFrame(buf[2], buf[HeaderSize..|frame|])
    ensures Split(buf, 0) == ([f] + Split(rest, 0).0, |frame| + Split(rest, 0).1)
  {
    SplitFrame(buf, 0, |frame|, f);
    SplitShift(frame, rest, 0);
  }

  /**
   * send_packet then recv_packet: a packet object whose class the receiver files under the
   * same id arrives as an instance with the sent values of the fields active at the class's
   * default version, and None for the rest; what follows it is drained as before.
   */
  lemma SendThenReceive(cls: PacketClass, inst: Instance, rest: seq<byte>, reg: map<int, PacketClass>)
    requires Decodable(reg) && cls.pid in reg && reg[cls.pid] == cls
    requires forall j :: 0 <= j < |cls.parsingFields| ==> IsPrepared(cls.parsingFields[j])
    requires forall f :: f in Flatten(cls.parsingFields) ==> f in cls.fields
    requires InstanceFits(cls.fields, inst)
    requires VersionConsistent(cls.parsingFields, VersionField(cls.fields), VInt(DefaultVersionOf(cls)),
                               VInt(DefaultVersionOf(cls)), DataOf(cls.fields, inst))
    requires SendSpec(PacketObject(cls, inst)).Success?
    ensures var frame := SendSpec(PacketObject(cls, inst)).value;
            var expected := map n | n in NamesOf(cls.fields) ::
                              if n in ActiveNames(cls.parsingFields, VInt(DefaultVersionOf(cls))) then inst[n] else VNone;
            Drain(frame + rest, reg).0 == [Received(cls, expected)] + Drain(rest, reg).0
            && (frame + rest)[Drain(frame + rest, reg).1..] == rest[Drain(rest, reg).1..]
  {
    PacketRoundTrip(cls, inst, None, None);
    var data := Write(cls, inst, None).value;
    var frame := SendSpec(PacketObject(cls, inst)).value;
    var expected := map n | n in NamesOf(cls.fields) ::
                      if n in ActiveNames(cls.parsingFields, VInt(DefaultVersionOf(cls))) then inst[n] else VNone;
    assert FrameSpec(cls.pid, data) == Success(frame);
    FrameBytes(cls.pid, data);
    var f := RawFrame(cls.pid, data);
    assert Delivered(reg, f) == [Received(cls, expected)];
    FrameThenSplit(cls.pid, data, frame, rest);
    DrainHead(reg, f, Received(cls, expected), frame, rest);
  }

  /**
   * The same for a class that _prepare built: each declared field arrives with its sent value
   * exactly when its own required version is met by the class's default version.
   */
  lemma SendThenReceivePrepared(cls: PacketClass, inst: Instance, rest: seq<byte>, reg: map<int, PacketClass>)
    requires Decodable(reg) && cls.pid in reg && reg[cls.pid] == cls
    requires PreparedFrom(cls)
    requires InstanceFits(cls.fields, inst)
    requires VersionConsistent(cls.parsingFields, VersionField(cls.fields), VInt(DefaultVersionOf(cls)),
                               VInt(DefaultVersionOf(cls)), DataOf(cls.fields, inst))
    requires SendSpec(PacketObject(cls, inst)).Success?
    ensures var frame := SendSpec(PacketObject(cls, inst)).value;
            var expected := map n | n in NamesOf(cls.fields) ::
                              if NameActive(cls.fields, n, VInt(DefaultVersionOf(cls))) then inst[n] else VNone;
            Drain(frame + rest, reg).0 == [Received(cls, expected)] + Drain(rest, reg).0
            && (frame + rest)[Drain(frame + rest, reg).1..] == rest[Drain(rest, reg).1..]
  {
    PreparedReady(cls);
    SendThenReceive(cls, inst, rest, reg);
    ActiveMapsAgree(cls, inst, VInt(DefaultVersionOf(cls)));
  }

  /** A stream that starts with a frame delivering `r` drains to `r` and then what follows. */
  lemma DrainHead(reg: map<int, PacketClass>, f: RawFrame, r: Received, frame: seq<byte>, rest: seq<byte>)
    requires Decodable(reg)
    requires Split(frame + rest, 0) == ([f] + Split(rest, 0).0, |frame| + Split(rest, 0).1)
    requires Delivered(reg, f) == [r]
    ensures Drain(frame + rest, reg).0 == [r] + Drain(rest, reg).0
    ensures (frame + rest)[Drain(frame + rest, reg).1..] == rest[Drain(rest, reg).1..]
  {
    var tail := Split(rest, 0).0;
    assert ([f] + tail)[0] == f && ([f] + tail)[1..] == tail;
    assert (frame + rest)[|frame| + Split(rest, 0).1..] == rest[Split(rest, 0).1..];
  }

  // ---------------------------------------------------------------- recv_packet as written

  /**
   * Where the recv_packet loop as written goes on from `index`: None where it breaks (fewer
   * than three bytes, or a length beyond the bytes at hand), else the index moved on by the
   * announced length, with no check that the length covers the header.
   */
  function NextIndexAsWritten(buf: seq<byte>, index: nat): (r: Option<nat>)
    ensures r.None? <==> index + HeaderSize > |buf| || index + Announced(buf, index) > |buf|
    ensures r.Some? ==> r.value == index + Announced(buf, index)
  {
    if |buf| < index + HeaderSize then None
    else if |buf| < Announced(buf, index) + index then None
    else Some(index + Announced(buf, index))
  }

  /**
   * The loop as written and the corrected one move on together wherever the announced length
   * covers the header; they part only on lengths 0, 1 and 2.
   */
  lemma AsWrittenAgreesOnFrames(buf: seq<byte>, index: nat)
    requires index <= |buf|
    ensures FrameAt(buf, index) <==> NextIndexAsWritten(buf, index).Some? && HeaderSize <= Announced(buf, index)
    ensures FrameAt(buf, index) ==> Split(buf, index).1 == Split(buf, NextIndexAsWritten(buf, index).value).1
  {
  }

  /** The loop as written stands still exactly on a header announcing length 0. */
  lemma AsWrittenStalls(buf: seq<byte>, index: nat)
    ensures NextIndexAsWritten(buf, index) == Some(index)
            <==> index + HeaderSize <= |buf| && buf[index] == 0 && buf[index + 1] == 0
  {
  }

  /** The three bytes 00 00 07: as written the loop never leaves index 0; corrected, nothing is consumed. */
  lemma ZeroLengthFrameStalls(reg: map<int, PacketClass>)
    requires Decodable(reg)
    ensures NextIndexAsWritten([0, 0, 7], 0) == Some(0)
    ensures Drain([0, 0, 7], reg) == ([], 0)
  {
    assert !FrameAt([0, 0, 7], 0);
  }

  /**
   * The yield of one recv_packet turn as written: nothing for an unknown id; the decoded
   * packet; or, when the decode raises, whatever `obj` still holds from an earlier turn, and
   * UnboundLocalError when no earlier turn assigned it.
   */
  function YieldAsWritten(reg: map<int, PacketClass>, frame: RawFrame, previous: Option<Received>)
    : (r: Result<seq<Received>>)
    requires Decodable(reg)
    ensures r.Failure? <==> frame.pid in reg && FromDataSpec(reg[frame.pid], frame.body, 0, None).Failure?
                             && previous.None?
    ensures r.Success? && Delivered(reg, frame) == [] && frame.pid in reg ==> r.value == [previous.value]
    ensures Delivered(reg, frame) != [] ==> r == Success(Delivered(reg, frame))
  {
    if frame.pid !in reg then Success([])
    else
      match FromDataSpec(reg[frame.pid], frame.body, 0, None)
      case Success(d) => Success([Received(reg[frame.pid], d.0)])
      case Failure(_) =>
        if previous.Some? then Success([previous.value]) else Failure(UnboundLocalError)
  }

  /** A body too short for the header class fails to decode. */
  lemma HeaderShortBody()
    ensures AllWellFormed(HeaderClass.parsingFields)
    ensures FromDataSpec(HeaderClass, [], 0, None).Failure?
  {
    HeaderPrepared();
    var gs := [HeaderGroup];
    assert gs[0] == HeaderGroup;
    assert !Skipped(HeaderGroup, VInt(-1));
    assert DefaultVersionOf(HeaderClass) == -1;
    assert Unpack(HeaderGroup.layout, [], 0).Failure?;
  }

  /**
   * With id 7 bound to the header class, the frame 03 00 07 has an empty body that does not
   * decode: as written the turn re-yields the earlier packet, or raises when there is none;
   * corrected, the frame is consumed and nothing is delivered.
   */
  lemma FailedDecodeReyields(earlier: Received)
    ensures Decodable(map[7 := HeaderClass])
    ensures YieldAsWritten(map[7 := HeaderClass], RawFrame(7, []), Some(earlier)) == Success([earlier])
    ensures YieldAsWritten(map[7 := HeaderClass], RawFrame(7, []), None) == Failure(UnboundLocalError)
    ensures Drain([3, 0, 7], map[7 := HeaderClass]) == ([], 3)
  {
    HeaderShortBody();
    var reg := map[7 := HeaderClass];
    assert Decodable(reg);
    var buf: seq<byte> := [3, 0, 7];
    assert FrameAt(buf, 0) && Announced(buf, 0) == 3;
    assert buf[3..3] == [];
    assert !FrameAt(buf, 3);
    assert Split(buf, 3) == ([], 3);
    assert buf[2] == 7 && buf[HeaderSize..3] == [];
    assert [RawFrame(7, [])] + [] == [RawFrame(7, [])];
    assert Split(buf, 0) == ([RawFrame(7, [])], 3);
    assert Delivered(reg, RawFrame(7, [])) == [];
    assert DeliverAll(reg, [RawFrame(7, [])]) == [];
  }
}
