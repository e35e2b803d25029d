# libopenttd packet codec, modelled in Dafny

libopenttd is a Python 2 library that speaks the binary network protocols of OpenTTD (admin, client,
master server). A packet is declared as a class whose attributes are *fields* (unsigned byte, short,
int, NUL-terminated string, …). When the class is created, a metaclass does the following:

- it collects the fields, inheriting undeclared ones from its parents;
- it resolves the class options (protocol, direction, `default_version`, `abstract`, `virtual`,
  `override`);
- it sorts the fields by their `ordering`;
- it merges adjacent fixed-width fields into single `struct` groups, the *parsing fields*;
- it registers the class under (protocol, direction, packet id).

A per-class manager turns an instance into bytes (`to_data`) and bytes back into an instance
(`from_data`). On the wire, every frame starts with a three-byte header: a little-endian u16 total
length, then a u8 packet id. `PacketSocket` drains complete frames from a receive buffer and
decodes each one with the class registered for its id. Fields may carry a `required_version`.
Such a field is written and read only when the active version (from `extra['version']`, from a
version field read earlier in the same packet, or the class default) is at least that number.

The model covers the following, one module per concern:

- `PyStruct`: the part of Python's `struct` module the codec relies on (little-endian,
  the nine type codes the field catalogue uses).
- `Fields`: field descriptors, group preparation, `write_bytes` and `read_bytes`.
- `Schema`: option resolution, sorting, the merge rule, `_prepare`.
- `Codec`: `to_data` / `from_data` with version gating.
- `Packet`: `__init__`, `as_dict`, `write`, packet size.
- `Registry`: the registry class.
- `Builder`: the metaclass.
- `Framing`: the header class and `PacketSocket`.
- `Enums`: `EnumHelper`.
- `Validators`: the length validators.

Two further modules check the model against the repository's tests:

- `Scenarios`: `test/test_simple.py`.
- `Versioned`: `test/test_versioned.py`.

How the Python is represented:

- Python values are a datatype `Value` (`None`, int, bool, byte string, tuple).
- Python 2's mixed-type comparison (`None < int`, `str > int`) is written out in `Codec.PyLess`.
- Exceptions become `Failure(...)` results.
- A field descriptor is a value.
- The state that `merge` and `_prepare` mutate on the group leader (`neighbours`, `struct`,
  `length`, `total_fields`) is a `ParsingField` value that the preparation code rebuilds.
- The registry, the socket and `EnumHelper` mutate their own state, so they are classes with
  `modifies` clauses.
- Loops in the source are methods with loop invariants. Each method is proved equal to a
  specification function, and the lemmas are stated about those functions.

Where the repository's parts disagree, the model follows the code:

- A field absent from the decoded data is set to `None` (base.py:48-50), not to its default value.
- base.py:42 calls `read_bytes(data, index, extra)`, but `StructField.read_bytes` at
  fields.py:102 takes only `(data, index)`. The model reads with `(data, index)`; the extra
  argument has no effect on any field modelled here.
- `Packet.write()` at packet.py:36-37 takes no argument and calls `to_data` without `extra`, while
  test/test_versioned.py:45 calls `write(extra=...)`. `Packet.Write` takes an optional `extra`;
  `None` is what `write()` passes.
- `required_version` and `is_version_identifier` are read by base.py:35,39 but are not accepted
  by the field constructors in fields.py:9-10. The model makes them components of every field:
  `0` means "not gated" (a falsy `required_version`) and `false` means "not the version field".
- `StringField` is not part of this model's source files. Following its use in
  test/test_versioned.py:12,25, it is modelled as a NUL-terminated byte string that never merges.
- `is_fixed_length` and `get_field_size` (packet.py:39-48) are not defined in fields.py. A field
  has a fixed size when it is a `struct` field with a non-empty format, and its size is that
  format's size.

## Model

| member | source | states |
|---|---|---|
| PyStruct.CharOf | libopenttd/packets/fields.py:117-166 | the type code a field class declares is one `struct` understands, and maps back to the same code |
| PyStruct.ByteOrderMarkReplaced | libopenttd/packets/fields.py:59-65 | whatever byte-order mark a field's format starts with, the built struct has exactly the layout of the remaining codes |
| PyStruct.ParseCodesAppend | libopenttd/packets/fields.py:75-81 | parsing a concatenated format gives the concatenation of the parsed layouts, so a group's format parses member by member |
| PyStruct.SizeAppend | libopenttd/packets/fields.py:81-82 | the size of a concatenated layout is the sum of the sizes |
| PyStruct.LittleEndianRoundTrip | libopenttd/packets/fields.py:59-65 | an integer below 256^n written as n little-endian bytes reads back as itself |
| PyStruct.FromLittleEndianInverse | libopenttd/packets/fields.py:59-65 | n little-endian bytes read as an integer and written back give the same bytes |
| PyStruct.PackOneRoundTrip | libopenttd/packets/fields.py:96 | a value in range for its code packs to that code's width and unpacks to itself |
| PyStruct.UnpackOneRoundTrip | libopenttd/packets/fields.py:103 | bytes of a code's width unpack to an in-range value that packs back to the same bytes |
| PyStruct.PackAll | libopenttd/packets/fields.py:96 | a successful pack is exactly as long as the layout's size |
| PyStruct.Unpack | libopenttd/packets/fields.py:103 | unpacking at an index succeeds exactly when the layout fits in the data from that index, and yields one value per code |
| PyStruct.PackUnpack | libopenttd/packets/fields.py:96-103 | values that fit their codes pack, and unpack back to the same values wherever the bytes are embedded |
| PyStruct.UnpackPack | libopenttd/packets/fields.py:96-103 | any bytes of the right length unpack to in-range values that pack back to those bytes |
| Fields.PrepareGroup | libopenttd/packets/fields.py:75-83 | the loop over the neighbours computes exactly the specified preparation |
| Fields.PrepareGroupLayout | libopenttd/packets/fields.py:75-83 | a prepared group's struct is its members' codes in order, its length their total size, its item count their summed field counts, and its members are unchanged |
| Fields.ParseGroupFormat | libopenttd/packets/fields.py:76-81 | the concatenated format of a group parses to its members' codes in order |
| Fields.WriteBytes | libopenttd/packets/fields.py:88-97 | the loop over leader and neighbours computes exactly the specified group write |
| Fields.Slice | libopenttd/packets/fields.py:113 | Python slicing of the unpacked items: the exact sub-sequence when in range, empty past the end |
| Fields.NulFrom | test/test_versioned.py:25 | the position found is the first NUL at or after the index, and no NUL means none exists |
| Fields.ReadBytes | libopenttd/packets/fields.py:102-115 | the loop over leader and neighbours computes exactly the specified group read, including InvalidReturnCount |
| Fields.MemberItemsRoundTrip | libopenttd/packets/fields.py:88-115 | a member's value, expanded into struct items and read back from those items, is the original value |
| Fields.GatherRuns | libopenttd/packets/fields.py:89-95 | gathering the members' values yields items that fit the group's codes, as many as the group's item count |
| Fields.AssignRuns | libopenttd/packets/fields.py:108-114 | assigning the items back to the members rebuilds exactly each member's value |
| Fields.StructGroupRoundTrip | libopenttd/packets/fields.py:88-115 | a prepared struct group writes `length` bytes, and reading them back at any offset returns every member's value and that length |
| Fields.StringRoundTrip | test/test_versioned.py:12 | a string without NUL bytes, written with its terminator, reads back as itself and consumes its length plus one |
| Schema.ContributeOptions | libopenttd/packets/base.py:79-100 | the option loop produces the specified options: defaults, overlaid by the parent's inherited options, overlaid by the Meta options |
| Schema.ContributePrecedence | libopenttd/packets/base.py:66-100 | a Meta option wins; otherwise an inherited option comes from the parent; otherwise the option keeps its initial default or stays absent |
| Schema.FieldByName | libopenttd/packets/base.py:136-140 | the result is the first field with that name, and none is returned exactly when no field has it |
| Schema.VersionField | libopenttd/packets/base.py:33-36 | the version field is the last field marked as version identifier, and there is none exactly when no field is marked |
| Schema.SortByOrdering | libopenttd/packets/base.py:105 | sorting keeps the fields as a multiset |
| Schema.SortSorted | libopenttd/packets/base.py:105 | sorted fields are in non-decreasing `ordering` |
| Schema.SortStable | libopenttd/packets/base.py:105 | fields with equal `ordering` keep the order they are listed in (the order of the class dictionary's items), as Python's stable `sorted` does |
| Schema.SortIdempotent | libopenttd/packets/base.py:105 | sorting an already sorted list changes nothing |
| Schema.MergeParsing | libopenttd/packets/base.py:109-121 | the iterator loop builds exactly the specified merge |
| Schema.MergeFlatten | libopenttd/packets/base.py:109-121 | merging loses, duplicates and reorders nothing: the groups' members in order are the input |
| Schema.MergeRunsProperties | libopenttd/packets/base.py:109-121 | every neighbour can merge with its leader, no two adjacent groups could have merged, every group is well formed, and the first leader is the first field |
| Schema.MergeHomogeneous | libopenttd/packets/fields.py:72-73 | under the corrected merge rule every neighbour has its leader's required version |
| Schema.MergeStructRun | libopenttd/packets/base.py:109-121 | a run of struct fields with one required version becomes a single group |
| Schema.PrepareAll | libopenttd/packets/base.py:123-124 | preparing every group in turn gives the specified result, stopping at the first failure |
| Schema.PrepareIdempotent | libopenttd/packets/fields.py:75-83 | preparing a group keeps its members, and preparing it again changes nothing |
| Schema.PrepareAllProperties | libopenttd/packets/base.py:123-124 | after preparation every group is prepared and keeps its leader and neighbours |
| Schema.PrepareSchema | libopenttd/packets/base.py:104-127 | `_prepare` computes exactly the specified sorted fields and parsing fields |
| Schema.PrepareSchemaShape | libopenttd/packets/base.py:104-127 | the sorted fields are a sorted permutation of the fields, the parsing fields flatten to them, respect the merge rule, and are all prepared |
| Codec.DataOf | libopenttd/packets/base.py:55 | the dictionary built from an instance has exactly the field names as keys |
| Codec.ToData | libopenttd/packets/base.py:53-64 | the segment loop computes exactly the specified encoding, skipping gated groups below the active version |
| Codec.NextExtra | libopenttd/packets/base.py:43-44 | after a group that read the version field, the active version is the value read; otherwise `extra` is unchanged |
| Codec.FromData | libopenttd/packets/base.py:28-51 | the decode loop computes exactly the specified decoding, with the version updated as groups are read |
| Codec.GroupRoundTrip | libopenttd/packets/fields.py:88-115 | a prepared group of fitting values reads back, from inside any byte string, as those values |
| Codec.DecodeEncode | libopenttd/packets/base.py:28-64 | decoding what was encoded, with a consistent version, recovers the values of every group active at that version and consumes exactly the encoded bytes |
| Codec.GroupsFit | libopenttd/packets/base.py:55 | values that fit the class's fields fit every parsing field |
| Codec.DecodedFields | libopenttd/packets/base.py:48-50 | the decoded object holds each active field's value and `None` for every other field |
| Codec.PacketRoundTrip | libopenttd/packets/base.py:28-64 | for a prepared class, `from_data(to_data(p))` gives back the value of every field active at the encoding version and `None` for the gated-out ones |
| Codec.ActiveNamesPerField | libopenttd/packets/base.py:38-41 | when every neighbour shares its leader's required version, gating a group by its leader activates a name exactly when some listed field of that name is active by its own required version |
| Codec.PreparedActiveNames | libopenttd/packets/base.py:104-121 | for a class prepared with the version-respecting merge rule, a name is active under a version exactly when a declared field of that name is not gated out by its own required version |
| Codec.PacketRoundTripPerField | libopenttd/packets/base.py:28-64 | for a prepared class, `from_data(to_data(p))` gives back each declared field whose own required version the encoding version meets, and `None` for every other field |
| Packet.LeadingCount | libopenttd/packets/packet.py:15-18 | positional arguments are bound up to, not including, the first `None` |
| Packet.BindPositional | libopenttd/packets/packet.py:15-18 | binding fails with AttributeError when more non-None arguments than sorted fields are given, and otherwise binds them in sorted order |
| Packet.CheckKeywords | libopenttd/packets/packet.py:20-22 | the keyword check passes exactly when every keyword is a field name |
| Packet.SetAttributes | libopenttd/packets/packet.py:26-28 | the attribute loop produces exactly the specified instance |
| Packet.Init | libopenttd/packets/packet.py:9-28 | construction computes exactly the specified instance or error |
| Packet.BindValue | libopenttd/packets/packet.py:15-18 | a name is bound exactly when a leading argument's sorted field has it, and it gets the last such argument |
| Packet.AssignValue | libopenttd/packets/packet.py:26-28 | every field name gets its given value or else its field's default value, where the last field with that name wins |
| Packet.InitValues | libopenttd/packets/packet.py:9-28 | an attribute comes from a keyword first, then from a positional argument, then from the field default; no other attribute is set |
| Packet.InitErrors | libopenttd/packets/packet.py:13-22 | IndexError exactly for too many arguments, AttributeError exactly for more bound arguments than sorted fields, InvalidFieldName exactly for an unknown keyword |
| Packet.PreparedInitBinds | libopenttd/packets/packet.py:13-15 | for a prepared class the AttributeError path cannot happen |
| Packet.AsDict | libopenttd/packets/packet.py:30-34 | `as_dict` has exactly the field names as keys |
| Packet.AsDictInit | libopenttd/packets/packet.py:9-34 | `as_dict` of a freshly constructed packet is its attributes |
| Packet.SizeSumSort | libopenttd/packets/packet.py:43-48 | the summed field size does not depend on the field order |
| Packet.GroupLength | libopenttd/packets/packet.py:43-48 | a prepared group's byte length is the summed size of its members |
| Packet.EncodeLength | libopenttd/packets/base.py:53-64 | with no group gated out, the encoding is as long as the summed size of the fields |
| Packet.WriteSize | libopenttd/packets/packet.py:36-48 | a fixed-length packet with nothing gated out writes exactly `get_packet_size()` bytes |
| Registry.Store | libopenttd/packets/registry.py:29 | storing sets one entry of one (protocol, direction) table and leaves every other table unchanged |
| Registry.PacketRegistry.constructor | libopenttd/packets/registry.py:9-12 | a new registry is empty |
| Registry.PacketRegistry.RegisterPacket | libopenttd/packets/registry.py:14-29 | the direction loop produces exactly the specified registration |
| Registry.PacketRegistry.GetPacketsDict | libopenttd/packets/registry.py:31-42 | the merge over directions produces exactly the specified dictionary |
| Registry.PacketRegistry.GetPackets | libopenttd/packets/registry.py:44-45 | the result holds exactly the classes of the packets dictionary |
| Registry.RegisterEffect | libopenttd/packets/registry.py:14-29 | registering adds the class to each of its directions' tables unless the id is taken and the class does not override; every other table is unchanged |
| Registry.PacketsDictContents | libopenttd/packets/registry.py:31-42 | the dictionary is one table, or the union of SEND and RECV with RECV winning on a shared id |
| Registry.RegisterThenGet | libopenttd/packets/registry.py:14-51 | after registering, `get_packet` under the class's own key finds it, unless another class held the id and this one does not override |
| Registry.RegisterIdempotent | libopenttd/packets/registry.py:14-29 | registering the same class twice is the same as registering it once |
| Builder.AppendUndeclared | libopenttd/packets/base.py:194-197 | the parent-field loop appends exactly the parent fields whose names are not declared |
| Builder.CollectFields | libopenttd/packets/base.py:187-197 | the class's fields are its own followed by every parent's undeclared fields, parents in order |
| Builder.DefineClass | libopenttd/packets/base.py:143-223 | class creation returns the specified class, and changes the registry exactly as specified: abstract, virtual and force-virtual classes are not registered |
| Builder.FieldInheritance | libopenttd/packets/base.py:187-197 | a name declared by the class resolves to its own field, any other to the first parent field with it, and nothing else is a field |
| Builder.OptionInheritance | libopenttd/packets/base.py:164-181 | the pid and options are the declared ones, then the parent's inherited ones, then the defaults |
| Builder.Dispatch | libopenttd/packets/base.py:157-223 | no packet parent gives a plain class; abstract gives an unprepared, unregistered class with `abstract` reset; otherwise creation fails exactly when preparation fails, and registers unless virtual |
| Builder.BuiltClassReady | libopenttd/packets/base.py:104-127 | a created class is prepared from its fields: sorted permutation, merged parsing fields covering the fields |
| Builder.BuiltClassRoundTrip | libopenttd/packets/base.py:143-223 | every class the metaclass prepares decodes what it encodes: each field whose own required version the encoding version meets comes back with its value, every other field as `None` |
| Framing.HeaderPrepared | libopenttd/packets/packetsocket.py:9-15 | the header class merges `length` and `packet_id` into one three-byte group, has fixed size 3 and no version field |
| Framing.HeaderDecode | libopenttd/packets/packetsocket.py:9-15 | decoding three header bytes gives the little-endian u16 length and the u8 packet id |
| Framing.HeaderEncode | libopenttd/packets/packetsocket.py:9-15 | writing a header gives the little-endian length followed by the id, and fails with a struct error when either is out of range |
| Framing.RegisterKeepsDecodable | libopenttd/packets/registry.py:14-29 | registering a class with well-formed groups keeps every table decodable |
| Framing.DefineKeepsDecodable | libopenttd/packets/base.py:205-221 | class creation keeps every table decodable |
| Framing.PacketsDictDecodable | libopenttd/packets/packetsocket.py:43 | the socket's packet dictionary holds only decodable classes |
| Framing.Split | libopenttd/packets/packetsocket.py:69-76 | splitting consumes whole frames, moving by at least a header each time |
| Framing.SplitStop | libopenttd/packets/packetsocket.py:69-74 | splitting stops exactly where no complete frame starts |
| Framing.SplitExtend | libopenttd/packets/packetsocket.py:50-85 | more bytes never change the frames already found, and splitting resumes where it stopped |
| Framing.Drain | libopenttd/packets/packetsocket.py:63-85 | draining stops at a position within the buffer where no complete frame starts, and yields at most one object per frame |
| Framing.SplitReads | libopenttd/packets/packetsocket.py:50-85 | receiving a stream in two reads yields the same objects and keeps the same bytes as receiving it in one |
| Framing.ReadHeader | libopenttd/packets/packetsocket.py:70-73 | no header is read exactly when fewer than three bytes remain; otherwise it gives the announced length and the id |
| Framing.DeliverFrame | libopenttd/packets/packetsocket.py:77-84 | delivering one frame computes exactly the specified delivery |
| Framing.PacketSocket.constructor | libopenttd/packets/packetsocket.py:25-43 | protocol and direction default to NONE and BOTH, the packet dictionary is the registry's for them, and the buffers are empty |
| Framing.PacketSocket.BufferedRead | libopenttd/packets/packetsocket.py:50-58 | the received bytes are appended to the read buffer, the view is the whole buffer, and its index is 0 |
| Framing.PacketSocket.BufferedReadEnd | libopenttd/packets/packetsocket.py:60-61 | the read buffer becomes the unconsumed tail of the view |
| Framing.PacketSocket.DrainView | libopenttd/packets/packetsocket.py:69-84 | the frame loop yields exactly the decoded frames of the view and stops at the end of the last complete frame |
| Framing.PacketSocket.RecvPacket | libopenttd/packets/packetsocket.py:63-85 | one receive yields the drained objects of the pending bytes plus the new bytes, and keeps exactly the undrained tail |
| Framing.PacketSocket.SendPacket | libopenttd/packets/packetsocket.py:87-94 | sending builds the packet from a class if needed, writes it, and prefixes the header |
| Framing.FrameBytes | libopenttd/packets/packetsocket.py:87-94 | a frame is the little-endian total length, the id and the body, or a struct error when the length or id is out of range |
| Framing.FrameThenSplit | libopenttd/packets/packetsocket.py:69-94 | the receiver splits off exactly the frame the sender built, with its id and body |
| Framing.SendThenReceive | libopenttd/packets/packetsocket.py:63-94 | a packet sent and then received on a socket whose dictionary holds its class comes back as the same class with its values |
| Framing.SendThenReceivePrepared | libopenttd/packets/packetsocket.py:63-94 | for a class that `_prepare` built, a sent packet arrives with each field's value exactly when that field's own required version is met by the class's default version, and `None` otherwise |
| Enums.NameTableHolds | libopenttd/utils/enums.py:9-28 | the name table holds exactly the upper-case, non-underscore attributes with their values |
| Enums.ValueTableHolds | libopenttd/utils/enums.py:9-28 | the value table maps each member value to the last member name with that value |
| Enums.NameThenValue | libopenttd/utils/enums.py:9-46 | looking up the name of a value and then that name's value gives the value back |
| Enums.ValueThenName | libopenttd/utils/enums.py:9-46 | a member that is the last with its value gets its own name back from its value |
| Enums.Largest | libopenttd/utils/enums.py:23-28 | the maximum is a member value and no member value exceeds it |
| Enums.Smallest | libopenttd/utils/enums.py:23-28 | the minimum is a member value and no member value is below it |
| Enums.EnumHelper.constructor | libopenttd/utils/enums.py:1-7 | a new helper is unbuilt, with no maximum or minimum |
| Enums.EnumHelper.Build | libopenttd/utils/enums.py:9-28 | building happens once: after it the helper is built, and a second call changes nothing |
| Enums.EnumHelper.IsValid | libopenttd/utils/enums.py:30-36 | a flag enum accepts 0 up to twice its largest value; with no members it rejects a negative value and raises TypeError for any other; any other enum accepts exactly its member values |
| Enums.EnumHelper.GetName | libopenttd/utils/enums.py:38-41 | a name is found exactly for member values, and it is the last member with that value |
| Enums.EnumHelper.GetFromName | libopenttd/utils/enums.py:43-46 | a value is found exactly for member names, and it is that member's value |
| Enums.DirectionIsValid | libopenttd/packets/enums.py:3-7 | a direction is valid exactly when it is 0 to 5 |
| Enums.ProtocolIsValid | libopenttd/packets/enums.py:9-16 | a protocol is valid exactly when it is 0 to 0x1FD |
| Validators.BothBoundsExactly | libopenttd/packets/validators.py:1-13 | a value passes both `MaxLength(n)` and `MinLength(n)` exactly when its length is n |
| Validators.MaxLengthMonotone | libopenttd/packets/validators.py:1-6 | a value that passes a maximum passes any larger maximum, and so does every prefix |
| Validators.MinLengthMonotone | libopenttd/packets/validators.py:8-13 | a value that passes a minimum passes any smaller minimum, and so does every extension |
| Validators.DegenerateBounds | libopenttd/packets/validators.py:1-13 | `MinLength(0)` accepts everything and a negative maximum rejects everything |
| Scenarios.SimpleSort | test/test_simple.py:26-28 | the four test fields sort with `testc` last |
| Scenarios.SimpleMerge | test/test_simple.py:22-24 | the four struct fields merge into a single parsing field |
| Scenarios.SimplePrepared | test/test_simple.py:5-11 | the test class is exactly what `_prepare` builds from its fields |
| Scenarios.SimpleWrite | test/test_simple.py:37-39 | writing the test packet gives exactly the twelve test bytes |
| Scenarios.SimpleRead | test/test_simple.py:30-35 | reading the twelve test bytes gives exactly the test packet's values |
| Scenarios.BooleanRoundTrip | libopenttd/packets/fields.py:120-126 | a boolean field with one unsigned byte reads back the boolean it wrote, from inside any byte string |
| Versioned.VersionedPrepared | test/test_versioned.py:7-14 | the versioned test class is exactly what `_prepare` builds from its fields, one group per field |
| Versioned.VersionedActive | test/test_versioned.py:30-39 | at version i the active fields are `version`, `testa` and `testd` from 1, `testb` from 2, and `testc` from 3 |
| Versioned.VersionedWrite | test/test_versioned.py:41-45 | writing the test packet with `extra={'version': i}` gives exactly the test bytes for versions 1 to 4 |
| Versioned.VersionedRoundTrip | test/test_versioned.py:47-55 | bytes written at version i read back, without extra, the fields active at i, and `None` for the gated-out ones |
| Versioned.WriteDefaultVersion | libopenttd/packets/base.py:53-61 | writing with no extra uses the default version, -1, so only the ungated version byte is written |

## Left out

- Sockets: `recv_into` and `sendall` are replaced by byte sequences passed in and returned. `connect` (packetsocket.py:45-48) only forwards an address to the operating system, so it is not modelled.
- Laziness: `recv_packet` is a generator, and the model returns the whole list of objects it would yield. A consumer that stops early is not modelled, and neither is the buffer state while the generator is suspended.
- Receiving: a read of zero bytes is the empty sequence, which the source also leaves unhandled (packetsocket.py:66-67). The `recv_buffer` scratch array and the view index's reset are kept as fields, but `mbuf_size` is the view's length.
- Registry.RegisterThenGet: does not cover directions such as 7 that contain both flags but differ from 3. Such a class is filed under 1, 2 and 3 and then looked up under 7 (registry.py:16-17,50-51). The lemma requires the direction to be 3 or to lack a flag.
- Registry: the collision warning of registry.py:24-28 is not modelled (a warning is output only). Class identity (`existing == packet`) is structural equality of the class value.
- Builder: the `NewBase` special case (base.py:152-153) is not modelled. The parent list is given as the class's packet parents. `add_to_class` of other attributes is reduced to the fields and `pid`.
- Builder: a class's own fields are listed in the order of `attrs.items()` (base.py:184-185), a Python 2 dict whose order follows hashing, not the class body. `Declaration.fields` takes that order as given. So the tie order of fields with equal `ordering` is not derived from the source text.
- Builder: `copy.deepcopy` of parent fields (base.py:197) is not modelled. Fields are values and parsing groups are rebuilt from scratch, so state that a prepared parent's leader field carries into the copy cannot appear.
- Fields: only the codes `c B b H h I i Q q` of the field catalogue are modelled. Repeat counts inside a format and the other `struct` codes are not. The aliases (`UInt16Field`, `ByteField`, …) are the same kinds.
- Fields: `__repr__` and `__str__` are not modelled; they only format text.
- Enums: `dir(cls)` is given as the attribute list with integer values, in `dir`'s sorted order. Attributes whose value is not an integer are not modelled.
- Validators: what calls a validator is not part of this model. Only the two validators' acceptance is modelled.
- Values: Python 2 `str` data is a byte sequence. Unicode strings and their encoding are not modelled.

## Findings

| source | as written | input that shows it | evidently intended | confidence | as-written member | corrected member |
|---|---|---|---|---|---|---|
| libopenttd/packets/fields.py:72-73 | any struct field merges into the preceding struct group, whatever its `required_version`; the group is then gated only by its leader's version | the class of test/test_versioned.py:7-14 at version 1: `version`, `testa`, `testb` and `testc` form one ungated group, so `testb` and `testc` are written and read although they need versions 2 and 3 | only struct fields with the same `required_version` merge | not executed | Versioned.MergeAsWrittenIgnoresVersion | Schema.MergeHomogeneous |
| libopenttd/packets/fields.py:120-126 | `BooleanField` uses code `c`, which packs only a one-byte string, while `from_python` hands it the int 1 or 0; a read gives a one-byte string, whose `bool` is always true | writing `True` raises `struct.error`; reading the byte 0 gives `True` | one unsigned byte holding 1 or 0 (`B`) | not executed | Scenarios.BooleanAsWrittenFails | Scenarios.BooleanRoundTrip |
| libopenttd/packets/packetsocket.py:73-76 | a header announcing a length below 3 is accepted, and the index advances by that length | the buffer `00 00 07`: length 0, so the index never moves and the loop never ends | a frame must be at least as long as its header; draining stops otherwise | not executed | Framing.ZeroLengthFrameStalls | Framing.PacketSocket.DrainView |
| libopenttd/packets/packetsocket.py:80-84 | a body that fails to decode is swallowed by `except: pass`, and `yield obj` still runs | a registered id with a body too short for its class: the previous object is yielded again, or `UnboundLocalError` is raised when it is the first frame | a frame that fails to decode yields nothing | not executed | Framing.FailedDecodeReyields | Framing.DeliverFrame |
| libopenttd/packets/base.py:59-60 | `to_data` calls `extra.get` without replacing a `None` extra, unlike `from_data` (base.py:30-31) | `write()` (packet.py:36-37) on the class of test/test_versioned.py:7-14 passes no extra, and its first gated group raises AttributeError | `None` stands for an empty extra, so the default version applies | not executed | Versioned.WriteAsWrittenFails | Versioned.WriteDefaultVersion |
