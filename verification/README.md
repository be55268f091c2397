# AgentX wire codec in Dafny

This project models the AgentX wire codec of a Rust SNMP subagent library.
AgentX is the master-agent/subagent protocol of RFC 2741. The codec has three parts:

- **Leaf codecs** (`src/agentx/pdu.rs`, modelled in `pdu.dfy`):
  - object identifiers, with the 1.3.6.1.X prefix compression of section 5.1;
  - padded octet strings (section 5.3);
  - the thirteen-variant typed value (section 5.4);
  - search ranges (section 5.2) and variable bindings.
- **The 20-byte frame header** (`src/agentx/header.rs`, modelled in `header.dfy`):
  - PDU types 1 to 18;
  - the five flag bits, of which NETWORK_BYTE_ORDER chooses big- or little-endian for the four 32-bit words.
- **The PDU bodies** (`src/agentx/bodies.rs`, modelled in `lists.dfy` and `bodies.dfy`):
  - Open and Close;
  - Register and Unregister;
  - Get/GetNext and GetBulk;
  - TestSet and Notify;
  - the four empty bodies;
  - Response;
  - the list decoder `decode_varbinds` and the range-list loops.

`wire.dfy` holds the machine integer types, the big- and little-endian packings with their round-trip lemmas, and the `Result` type every decoder returns.

Rust writes into a `Write` and reads from a `Read`. Here:

- an encoder is a function that returns the bytes it would write, or an error;
- a decoder is a function of the bytes still available to the reader. It returns the decoded entity and the number of bytes it consumed, or an error. `Truncated` stands for `read_exact` running out.

The source's loops are Dafny methods, each proved equal to the specification function:

- the sub-identifier loops of `encode_oid` and `decode_oid`;
- the padding loop of `encode_octet_string`;
- the element loops of the body encoders;
- `decode_varbinds` and the Get/GetBulk range loops.

The properties are then proved about those functions:

- every codec round-trips, whatever bytes follow the encoding;
- every strict prefix of an encoding is refused as truncated, for each leaf codec and each body;
- a list body decodes to exactly its payload length, and one declared a byte short is refused;
- the header round-trips and re-encodes;
- the compression layout, the padding layout and the lenient decoding of close reasons and error codes.

The list codec is written once, over any element codec. The laws it needs of the element codec are `Advances`, `RoundTrips` and `RefusesPrefixes`, stated as predicates and proved for bindings and for ranges.

## Model

| member | source | states |
|---|---|---|
| `Pdu.PadTo4` | src/agentx/pdu.rs:7-9 | the padding is below 4 and brings the length to a multiple of 4; it is 0 exactly for aligned lengths |
| `Pdu.OidBytes` | src/agentx/pdu.rs:11-38 | encoding succeeds exactly when the tail after compression has at most 255 sub-identifiers, otherwise fails with OidTooLong; the encoding is 4 + 4 per tail sub-identifier bytes |
| `Pdu.SubIdBytes` | src/agentx/pdu.rs:33-35 | the sub-identifier loop writes four bytes per sub-identifier |
| `Pdu.SubIdBytesAppend` | src/agentx/pdu.rs:33-35 | one more loop iteration appends the big-endian bytes of one more sub-identifier |
| `Pdu.SubIdBytesAt` | src/agentx/pdu.rs:33-35 | the i-th word of the written sub-identifiers is the i-th sub-identifier |
| `Pdu.EncodeOid` | src/agentx/pdu.rs:11-38 | the header-then-loop encoder produces exactly `OidBytes` |
| `Pdu.ParseOid` | src/agentx/pdu.rs:40-70 | a successful decode consumes 4 + 4 × count bytes, taken from the first byte; the inclusive flag is "byte 2 is non-zero"; the only failure is Truncated |
| `Pdu.SubIdsAt` | src/agentx/pdu.rs:54-57 | reading k words yields exactly k sub-identifiers |
| `Pdu.SubIdsRoundTrip` | src/agentx/pdu.rs:33-35 | the read loop gives back the sub-identifiers the write loop wrote |
| `Pdu.DecodeOid` | src/agentx/pdu.rs:40-70 | the header-then-loop decoder returns exactly `ParseOid` |
| `Pdu.OidRoundTrip` | src/agentx/pdu.rs:11-70 | every encodable identifier decodes to itself and its inclusive flag, consuming exactly its encoding, whatever follows |
| `Pdu.OidTruncated` | src/agentx/pdu.rs:40-58 | every strict prefix of an identifier encoding is refused as Truncated |
| `Pdu.OidLayout` | src/agentx/pdu.rs:14-35 | 1.3.6.1.X with 1 ≤ X ≤ 255 is sent as X in the prefix byte plus the sub-identifiers after the fifth, anything else as prefix 0 plus every sub-identifier; the flag and reserved bytes; each word is the matching sub-identifier |
| `Pdu.OidTailLimit` | src/agentx/pdu.rs:27-28 | a tail of 255 still encodes, while 256 is refused instead of wrapping |
| `Pdu.NullOidSentinel` | src/agentx/pdu.rs:60-63 | a header with neither prefix nor count decodes to the placeholder identifier [0] after 4 bytes |
| `Pdu.EnterpriseOidExample` | src/agentx/pdu.rs:314-325 | 1.3.6.1.4.1.12345 is sent with count 2, prefix 4 and the inclusive flag, in 12 bytes |
| `Pdu.OidBytesAsWritten` | src/agentx/pdu.rs:11-38 | the encoder as written: prefix 0 is also compressed, and byte 0 is the tail length modulo 256 |
| `Pdu.AsWrittenPrefixZeroLosesPrefix` | src/agentx/pdu.rs:15-25 | as written, 1.3.6.1.0.5 is sent with prefix 0 and decodes as 5 |
| `Pdu.AsWrittenCountWraps` | src/agentx/pdu.rs:27-28 | as written, a 256-component identifier is announced with count 0: 1028 bytes are written and it decodes as [0] after 4 |
| `Pdu.PrefixZeroRoundTrip` | src/agentx/pdu.rs:15-25 | with the corrected rule 1.3.6.1.0.5 is sent with prefix 0 and decodes back whole, after 28 bytes |
| `Pdu.OctetStringBytes` | src/agentx/pdu.rs:72-84 | encoding succeeds exactly for lengths below 2^32, otherwise fails with StringTooLong; the encoding is 4 + length + padding bytes |
| `Pdu.ParseOctetString` | src/agentx/pdu.rs:86-102 | a successful decode consumes 4 + length + padding of the data it returns; the only failure is Truncated |
| `Pdu.EncodeOctetString` | src/agentx/pdu.rs:72-84 | the write-then-pad loop produces exactly `OctetStringBytes` |
| `Pdu.OctetStringAligned` | src/agentx/pdu.rs:77-99 | encodings and consumed counts are multiples of 4 |
| `Pdu.OctetStringLayout` | src/agentx/pdu.rs:72-84 | the encoding is the big-endian length, the data, then only zero bytes |
| `Pdu.OctetStringRoundTrip` | src/agentx/pdu.rs:72-102 | every encodable string decodes to itself, consuming exactly its encoding |
| `Pdu.OctetStringTruncated` | src/agentx/pdu.rs:86-99 | every strict prefix of a string encoding is refused as Truncated |
| `Pdu.HelloEncodesTo12Bytes` | src/agentx/pdu.rs:338-348 | "hello" takes 4 + 5 + 3 = 12 bytes |
| `Pdu.OctetStringBytesAsWritten` | src/agentx/pdu.rs:72-84 | the encoder as written, whose length field is the length modulo 2^32 |
| `Pdu.AsWrittenLengthWraps` | src/agentx/pdu.rs:73-74 | as written, a 2^32-byte string is announced as length 0 and decodes as the empty string; corrected, it is refused |
| `Pdu.TypeCode` | src/agentx/pdu.rs:137-154 | every type code is one of the thirteen codes of section 5.4 |
| `Pdu.TypeCodeInjective` | src/agentx/pdu.rs:137-154 | distinct value types have distinct codes |
| `Pdu.ValuePayload` | src/agentx/pdu.rs:156-193 | only octet-string, opaque and identifier payloads can fail; integer, address, counter, gauge and ticks payloads are 4 bytes, Counter64 is 8, and Null and the three exceptions write nothing |
| `Pdu.ValueBytes` | src/agentx/pdu.rs:156-193 | a value encoding starts with its big-endian type code and two reserved zero bytes |
| `Pdu.ParseValue` | src/agentx/pdu.rs:195-200 | a successful decode consumes the 4-byte header plus a payload that fits in the input |
| `Pdu.ParsePayload` | src/agentx/pdu.rs:201-254 | a payload decode never consumes more than it was given |
| `Pdu.ValueBytesSplit` | src/agentx/pdu.rs:185-199 | the decoder reads back the encoder's type code, and the payload follows the 4-byte header |
| `Pdu.ValueRoundTrip` | src/agentx/pdu.rs:156-257 | every encodable value of all thirteen variants decodes to itself, consuming exactly its encoding |
| `Pdu.PayloadRoundTrip` | src/agentx/pdu.rs:201-247 | each type code's payload decoder inverts its payload encoder |
| `Pdu.FixedPayloadRoundTrip` | src/agentx/pdu.rs:202-244 | the same for the fixed-width payloads (integer, address, counters, gauge, ticks, 64-bit counter) |
| `Pdu.VariablePayloadRoundTrip` | src/agentx/pdu.rs:207-239 | the same for octet strings, opaque data and identifiers |
| `Pdu.ValueTruncated` | src/agentx/pdu.rs:195-244 | every strict prefix of a value encoding is refused as Truncated |
| `Pdu.PayloadTruncated` | src/agentx/pdu.rs:201-244 | every strict prefix of a payload is refused as Truncated |
| `Pdu.FixedPayloadTruncated` | src/agentx/pdu.rs:202-244 | the same for the fixed-width payloads |
| `Pdu.UnknownValueTypeExactly` | src/agentx/pdu.rs:248-253 | decoding fails with UnknownValueType exactly for codes outside the section 5.4 table |
| `Pdu.ValueExamples` | src/agentx/pdu.rs:365-396 | Integer(-12345) and Counter64(2^64 - 1) round-trip |
| `Pdu.SearchRangeBytes` | src/agentx/pdu.rs:120-124 | a range encodes exactly when both of its identifiers do; the start carries the range's inclusive flag at byte 2 and the end is written with flag 0; at least 8 bytes |
| `Pdu.ParseSearchRange` | src/agentx/pdu.rs:126-134 | a successful decode consumes at least 8 bytes and no more than the input |
| `Pdu.SearchRangeRoundTrip` | src/agentx/pdu.rs:120-134 | every encodable range decodes to itself, inclusive flag included, consuming exactly its encoding |
| `Pdu.SearchRangeTruncated` | src/agentx/pdu.rs:126-134 | every strict prefix of a range encoding is refused as Truncated |
| `Pdu.VarBindBytes` | src/agentx/pdu.rs:285-289 | a binding encodes exactly when its identifier and its value do; its identifier is written non-inclusive (byte 2 is 0); at least 8 bytes |
| `Pdu.ParseVarBind` | src/agentx/pdu.rs:291-295 | a successful binding decode consumes at least 8 bytes and no more than it was given |
| `Pdu.VarBindRoundTrip` | src/agentx/pdu.rs:285-295 | every encodable binding decodes to itself, consuming exactly its encoding |
| `Pdu.VarBindTruncated` | src/agentx/pdu.rs:291-295 | every strict prefix of a binding encoding is refused as Truncated |
| `Wire.I32BitsInverse` | src/agentx/pdu.rs:202-206 | reading the two's-complement bits of an i32 gives the i32 back |
| `Wire.I32Bits` | src/agentx/pdu.rs:158 | the two's-complement bits of an i32 have the top bit clear exactly for non-negative values |
| `Wire.I32FromBits` | src/agentx/pdu.rs:202-206 | reading 32 bits as an i32 inverts taking its bits |
| `Wire.BE16OfBytes` | src/agentx/pdu.rs:195-199 | any two bytes are the big-endian bytes of the u16 read from them |
| `Wire.BE16RoundTrip` | src/agentx/pdu.rs:185-199 | a big-endian u16 is read back from its two bytes |
| `Wire.BE32RoundTrip` | src/agentx/pdu.rs:54-57 | a big-endian u32 is read back from its four bytes |
| `Wire.BE32OfBytes` | src/agentx/header.rs:134-140 | any four bytes are the big-endian bytes of the u32 read from them |
| `Wire.LE32RoundTrip` | src/agentx/header.rs:113-118 | a little-endian u32 is read back from its four bytes |
| `Wire.LE32OfBytes` | src/agentx/header.rs:141-147 | any four bytes are the little-endian bytes of the u32 read from them |
| `Wire.BE64RoundTrip` | src/agentx/pdu.rs:240-243 | a big-endian u64 is read back from its eight bytes |
| `Wire.BE64OfBytes` | src/agentx/pdu.rs:240-243 | any eight bytes are the big-endian bytes of the u64 read from them |
| `HeaderCodec.PduTypeCode` | src/agentx/header.rs:6-27 | every PDU type's code is in 1..18 |
| `HeaderCodec.PduTypeFromByte` | src/agentx/header.rs:29-55 | a byte converts exactly when it is in 1..18, to the type with that code; otherwise it fails with the byte itself |
| `HeaderCodec.PduTypeCodeRoundTrip` | src/agentx/header.rs:29-55 | converting a type's code gives the type back |
| `HeaderCodec.NetworkByteOrder` | src/agentx/header.rs:64 | among the defined flag bytes, NETWORK_BYTE_ORDER is set exactly for 0x10..0x1F; a byte below 0x10 never has it |
| `HeaderCodec.TruncateFlags` | src/agentx/header.rs:131 | truncation keeps only the five defined bits, leaves defined-only flags unchanged and preserves NETWORK_BYTE_ORDER |
| `HeaderCodec.NewHeader` | src/agentx/header.rs:80-90 | version 1, flags NETWORK_BYTE_ORDER, payload length 0, the given type and ids |
| `HeaderCodec.WithPayloadLength` | src/agentx/header.rs:92-95 | sets the payload length and no other field |
| `HeaderCodec.WithFlags` | src/agentx/header.rs:97-100 | sets the flags and no other field |
| `HeaderCodec.Word` | src/agentx/header.rs:108-118 | a header word is four bytes |
| `HeaderCodec.WordRoundTrip` | src/agentx/header.rs:108-148 | a header word is read back in the byte order it was written in |
| `HeaderCodec.WordOfBytes` | src/agentx/header.rs:133-148 | any four bytes are the word encoding of the value read from them |
| `HeaderCodec.EncodeHeader` | src/agentx/header.rs:102-121 | the header is exactly 20 bytes |
| `HeaderCodec.DecodeHeader` | src/agentx/header.rs:123-159 | a successful decode consumes exactly 20 bytes and keeps only defined flag bits |
| `HeaderCodec.HeaderLayout` | src/agentx/header.rs:102-121 | the version, type, flags and zero bytes come first; the four words are big-endian exactly when NETWORK_BYTE_ORDER is set, little-endian otherwise |
| `HeaderCodec.WordsAt` | src/agentx/header.rs:133-148 | the four words are read back at offsets 4, 8, 12 and 16 |
| `HeaderCodec.HeaderRoundTrip` | src/agentx/header.rs:102-159 | every header decodes back after 20 bytes, with its undefined flag bits cleared |
| `HeaderCodec.HeaderRoundTripExact` | src/agentx/header.rs:166-177 | a header whose flags are within the five defined bits decodes to itself |
| `HeaderCodec.DecodeHeaderFailures` | src/agentx/header.rs:123-131 | decoding fails with Truncated below 20 bytes, with UnknownPduType for a type outside 1..18, and succeeds otherwise |
| `HeaderCodec.HeaderReencode` | src/agentx/header.rs:123-159 | 20 bytes with a known type, defined flags and a zero reserved byte re-encode to themselves |
| `HeaderCodec.HeaderExample` | src/agentx/header.rs:166-177 | `new(Open, 1, 2, 3).with_payload_length(100)` has flags 0x10 and round-trips |
| `Lists.ListBytesAtLeast` | src/agentx/bodies.rs:261-266 | a list of elements of at least m bytes each takes at least m bytes per element |
| `Lists.ListBytesSuccess` | src/agentx/bodies.rs:261-266 | a list encodes exactly when every element does |
| `Lists.EncodeList` | src/agentx/bodies.rs:261-266 | the element-by-element encoder loop produces exactly `ListBytes` |
| `Lists.ParseList` | src/agentx/bodies.rs:10-22 | a decoded list consumes exactly the payload length, at least one byte per element, and no more than the input; an element running past the payload is refused |
| `Lists.DecodeList` | src/agentx/bodies.rs:10-22 | the while-below-payload-length loop, which refuses an element ending past the payload, returns exactly `ParseList` |
| `Lists.ListRoundTrip` | src/agentx/bodies.rs:10-22 | for any element codec that round-trips, a list encoding decodes with its own length as payload length to the same elements, consuming exactly its bytes |
| `Lists.ListTruncated` | src/agentx/bodies.rs:10-22 | for any element codec that refuses prefixes, a payload cut short of its declared length is refused as Truncated |
| `Lists.ListOneShort` | src/agentx/bodies.rs:10-22 | for any element codec that round-trips with elements of at least 2 bytes, a non-empty list declared one byte shorter than its encoding is refused as Truncated |
| `Lists.ParseListAsWritten` | src/agentx/bodies.rs:14-19 | the list loop as written, which adds an estimate instead of the bytes taken; it never consumes more than it was given |
| `Lists.VarBindCodecLaws` | src/agentx/pdu.rs:285-295 | bindings advance, round-trip and refuse prefixes, so the list laws apply to them |
| `Lists.VarBindListBytes` | src/agentx/bodies.rs:353-358 | a binding list encodes exactly when each binding does, in at least 8 bytes per binding |
| `Lists.ParseVarBinds` | src/agentx/bodies.rs:10-22 | a successful decode consumes exactly the payload length, and no more than the input |
| `Lists.DecodeVarBinds` | src/agentx/bodies.rs:10-22 | `decode_varbinds`, with real byte counts, returns exactly `ParseVarBinds` |
| `Lists.VarBindListRoundTrip` | src/agentx/bodies.rs:10-22 | every encodable binding list decodes to itself |
| `Lists.VarBindListTruncated` | src/agentx/bodies.rs:14-15 | a binding list cut short of its payload length is refused as Truncated |
| `Lists.VarBindListOneShort` | src/agentx/bodies.rs:14-15 | a non-empty binding list declared one byte short is refused as Truncated |
| `Lists.ParseVarBindsAsWritten` | src/agentx/bodies.rs:14-19 | `decode_varbinds` as written, counting 16 + 4 per sub-identifier per binding; it never consumes more than it was given |
| `Lists.SearchRangeCodecLaws` | src/agentx/pdu.rs:120-134 | ranges advance, round-trip and refuse prefixes |
| `Lists.RangeListBytes` | src/agentx/bodies.rs:261-266 | a range list encodes exactly when each range does, in at least 8 bytes per range |
| `Lists.ParseRanges` | src/agentx/bodies.rs:328-332 | a successful decode consumes exactly the payload length, and no more than the input |
| `Lists.DecodeRanges` | src/agentx/bodies.rs:268-285 | the range loop, with real byte counts, returns exactly `ParseRanges` |
| `Lists.RangeListRoundTrip` | src/agentx/bodies.rs:261-285 | every encodable range list decodes to itself |
| `Lists.RangeListTruncated` | src/agentx/bodies.rs:272-274 | a range list cut short of its payload length is refused as Truncated |
| `Lists.RangeListOneShort` | src/agentx/bodies.rs:272-274 | a non-empty range list declared one byte short is refused as Truncated |
| `Lists.ParseRangesAsWritten` | src/agentx/bodies.rs:272-282 | the range loops as written, counting 8 + 4 per sub-identifier of both ends; it never consumes more than it was given |
| `Lists.AsWrittenStopsAfterOne` | src/agentx/bodies.rs:14-19 | when the first estimate already reaches the payload length, the loop as written stops after one element |
| `Lists.AsWrittenVarBindsDropSecond` | src/agentx/bodies.rs:17 | two 12-byte bindings in a 24-byte payload: as written only the first is read; with real counts both are |
| `Lists.AsWrittenRangesDropSecond` | src/agentx/bodies.rs:276 | two 16-byte ranges in a 32-byte payload: as written only the first is read; with real counts both are |
| `Bodies.IdentityBytes` | src/agentx/bodies.rs:44-45 | the identifier and description encode exactly when each does, in at least 8 bytes |
| `Bodies.ParseIdentity` | src/agentx/bodies.rs:54-55 | a successful decode consumes at least 8 bytes and no more than the input |
| `Bodies.IdentityRoundTrip` | src/agentx/bodies.rs:44-55 | identifier and description decode back, consuming exactly their encoding |
| `Bodies.IdentityTruncated` | src/agentx/bodies.rs:54-55 | every strict prefix of an identity is refused as Truncated |
| `Bodies.OpenBytes` | src/agentx/bodies.rs:41-47 | encodes exactly when the identifier and description do; the timeout and three zero bytes come first, and the encoding is at least 12 bytes |
| `Bodies.ParseOpen` | src/agentx/bodies.rs:49-62 | the decoded timeout is byte 0, and at least 12 bytes are consumed |
| `Bodies.OpenRoundTrip` | src/agentx/bodies.rs:41-62 | every encodable Open body decodes to itself |
| `Bodies.OpenTruncated` | src/agentx/bodies.rs:49-62 | every strict prefix of an Open body is refused as Truncated |
| `Bodies.OpenIgnoresReserved` | src/agentx/bodies.rs:50-52 | the three reserved bytes do not affect the decode |
| `Bodies.OpenExample` | src/agentx/bodies.rs:567-581 | timeout 30 and description "test agent" come back |
| `Bodies.CloseReasonCode` | src/agentx/bodies.rs:66-75 | reason codes are 1..6 |
| `Bodies.CloseReasonFromByte` | src/agentx/bodies.rs:96-104 | bytes 1..6 give the reason with that code; any other byte gives Other |
| `Bodies.CloseReasonRoundTrip` | src/agentx/bodies.rs:87-104 | a reason's code reads back as the reason |
| `Bodies.CloseBytes` | src/agentx/bodies.rs:87-91 | four bytes: the reason's code, then three zero bytes; the code reads back as the reason |
| `Bodies.ParseClose` | src/agentx/bodies.rs:93-106 | decoding succeeds exactly when 4 bytes are available, otherwise fails with Truncated |
| `Bodies.CloseRoundTrip` | src/agentx/bodies.rs:87-106 | every Close body decodes to itself after 4 bytes |
| `Bodies.CloseLenient` | src/agentx/bodies.rs:103 | an unknown reason byte is read as Other, never refused |
| `Bodies.RegistrationTailBytes` | src/agentx/bodies.rs:141-147 | the subtree and optional bound encode exactly when the subtree does |
| `Bodies.ParseRegistrationTail` | src/agentx/bodies.rs:158-166 | a bound is present in the result exactly when the caller says one follows |
| `Bodies.UpperBoundBytes` | src/agentx/bodies.rs:143-145 | a bound takes 4 bytes; no bound takes none |
| `Bodies.ParseUpperBound` | src/agentx/bodies.rs:160-166 | a bound is read exactly when the caller says one follows |
| `Bodies.UpperBoundRoundTrip` | src/agentx/bodies.rs:143-166 | the optional bound reads back |
| `Bodies.RegistrationTailRoundTrip` | src/agentx/bodies.rs:141-166 | subtree and bound read back when the caller passes whether a bound is present |
| `Bodies.RegistrationTailTruncated` | src/agentx/bodies.rs:158-166 | every strict prefix of a registration tail is refused as Truncated when the caller expects the bound it carries |
| `Bodies.NewRegister` | src/agentx/bodies.rs:120-128 | the given subtree, priority and timeout, no range and no bound |
| `Bodies.RegisterWithRange` | src/agentx/bodies.rs:130-134 | sets the range sub-identifier and bound and keeps the other fields |
| `Bodies.RegisterBytes` | src/agentx/bodies.rs:136-148 | timeout, priority, range sub-identifier and a zero byte come first |
| `Bodies.ParseRegister` | src/agentx/bodies.rs:150-175 | a bound is decoded exactly when the caller says one follows; at least 8 bytes are consumed |
| `Bodies.RegisterRoundTrip` | src/agentx/bodies.rs:136-175 | every encodable Register body decodes to itself, with or without a range |
| `Bodies.RegisterTruncated` | src/agentx/bodies.rs:150-175 | every strict prefix of a Register body is refused as Truncated |
| `Bodies.RegisterExample` | src/agentx/bodies.rs:594-604 | the source's Register example round-trips in 16 bytes |
| `Bodies.NewUnregister` | src/agentx/bodies.rs:188-195 | the given subtree and priority, no range and no bound |
| `Bodies.UnregisterWithRange` | src/agentx/bodies.rs:197-201 | sets the range sub-identifier and bound and keeps the other fields |
| `Bodies.UnregisterBytes` | src/agentx/bodies.rs:203-215 | a zero byte, priority, range sub-identifier and a zero byte come first |
| `Bodies.ParseUnregister` | src/agentx/bodies.rs:217-240 | a bound is decoded exactly when the caller says one follows; at least 8 bytes are consumed |
| `Bodies.UnregisterRoundTrip` | src/agentx/bodies.rs:203-240 | every encodable Unregister body decodes to itself, with or without a range |
| `Bodies.UnregisterTruncated` | src/agentx/bodies.rs:217-240 | every strict prefix of an Unregister body is refused as Truncated |
| `Bodies.UnregisterExample` | src/agentx/bodies.rs:616-625 | the source's Unregister example round-trips in 16 bytes |
| `Bodies.SingleGet` | src/agentx/bodies.rs:254-259 | one non-inclusive range from the identifier to its child 0 |
| `Bodies.GetBytes` | src/agentx/bodies.rs:261-266 | a Get body encodes exactly when each range does, in at least 8 bytes per range |
| `Bodies.ParseGet` | src/agentx/bodies.rs:268-285 | a successful decode consumes exactly the payload length, and no more than the input |
| `Bodies.DecodeGet` | src/agentx/bodies.rs:268-285 | the Get decoder returns exactly `ParseGet` |
| `Bodies.GetRoundTrip` | src/agentx/bodies.rs:261-285 | every encodable Get body decodes to itself with its own length as payload length |
| `Bodies.GetTruncated` | src/agentx/bodies.rs:268-285 | a Get body cut short of its payload length, or declared one byte short, is refused as Truncated |
| `Bodies.SingleGetRoundTrip` | src/agentx/bodies.rs:254-266 | a single-identifier Get encodes whenever its child does, and decodes back |
| `Bodies.GetBulkBytes` | src/agentx/bodies.rs:305-314 | encodes exactly when the ranges do, in at least 4 bytes |
| `Bodies.ParseGetBulk` | src/agentx/bodies.rs:316-339 | a successful decode consumes exactly the payload length when it is at least 4, else the 4 count bytes and no range; never more than the input |
| `Bodies.DecodeGetBulk` | src/agentx/bodies.rs:316-339 | the GetBulk decoder returns exactly `ParseGetBulk` |
| `Bodies.GetBulkRoundTrip` | src/agentx/bodies.rs:305-339 | every encodable GetBulk body decodes to itself |
| `Bodies.GetBulkTruncated` | src/agentx/bodies.rs:316-339 | a GetBulk body cut short of its payload length, or declared one byte short, is refused as Truncated |
| `Bodies.GetBulkExample` | src/agentx/bodies.rs:627-641 | the source's GetBulk example round-trips in 20 bytes |
| `Bodies.AsWrittenGetBulkDropsSecond` | src/agentx/bodies.rs:328-332 | the same two ranges after the 4 count bytes (36 bytes): the GetBulk loop as written, run over the payload length less 4, reads only the first range; the corrected decoder reads both |
| `Bodies.TestSetBytes` | src/agentx/bodies.rs:353-358 | a TestSet body encodes exactly when each binding does, in at least 8 bytes per binding |
| `Bodies.ParseTestSet` | src/agentx/bodies.rs:360-363 | a successful decode consumes exactly the payload length, and no more than the input |
| `Bodies.TestSetRoundTrip` | src/agentx/bodies.rs:353-363 | every encodable TestSet body decodes to itself |
| `Bodies.TestSetTruncated` | src/agentx/bodies.rs:360-363 | a TestSet body cut short of its payload length, or declared one byte short, is refused as Truncated |
| `Bodies.NotifyBytes` | src/agentx/bodies.rs:431-436 | a Notify body encodes exactly when each binding does, in at least 8 bytes per binding |
| `Bodies.ParseNotify` | src/agentx/bodies.rs:438-441 | a successful decode consumes exactly the payload length, and no more than the input |
| `Bodies.NotifyRoundTrip` | src/agentx/bodies.rs:431-441 | every encodable Notify body decodes to itself |
| `Bodies.NotifyTruncated` | src/agentx/bodies.rs:438-441 | a Notify body cut short of its payload length, or declared one byte short, is refused as Truncated |
| `Bodies.EmptyBytes` | src/agentx/bodies.rs:375-377 | an empty body writes no bytes |
| `Bodies.ParseEmpty` | src/agentx/bodies.rs:379-381 | an empty body decodes to its own kind, consumes nothing and never fails, whatever bytes follow |
| `Bodies.EmptyRoundTrip` | src/agentx/bodies.rs:366-418 | for CommitSet, UndoSet and CleanupSet (Ping is lines 444-460 and behaves the same): the encoding is empty, and decoding it before any bytes gives the same kind back after 0 bytes |
| `Bodies.ResponseErrorCode` | src/agentx/bodies.rs:462-480 | code 0 is exactly NoError; every other code is in 256..268 |
| `Bodies.ResponseErrorFrom` | src/agentx/bodies.rs:482-502 | known codes give the error with that code; every other code gives ProcessingError |
| `Bodies.ResponseErrorRoundTrip` | src/agentx/bodies.rs:482-502 | an error's code reads back as the error |
| `Bodies.NewResponse` | src/agentx/bodies.rs:513-520 | no error, index 0, the given uptime and bindings |
| `Bodies.ErrorResponse` | src/agentx/bodies.rs:522-529 | the given uptime, error and index, no bindings |
| `Bodies.ResponseBytes` | src/agentx/bodies.rs:531-541 | encodes exactly when the bindings do, in at least 8 bytes |
| `Bodies.ResponseHeaderOf` | src/agentx/bodies.rs:543-549 | uptime, error and index read back from the 8-byte header |
| `Bodies.ParseResponseAsWritten` | src/agentx/bodies.rs:543-560 | the decoder as written: it succeeds exactly on 8 bytes, consumes 8 and never returns bindings |
| `Bodies.ParseResponse` | src/agentx/bodies.rs:543-560 | a successful decode consumes exactly the payload length when it is at least 8, else the 8 header bytes and no binding; never more than the input |
| `Bodies.DecodeResponse` | src/agentx/bodies.rs:543-560 | the Response decoder returns exactly `ParseResponse` |
| `Bodies.ResponseRoundTrip` | src/agentx/bodies.rs:531-560 | every encodable Response, bindings included, decodes to itself |
| `Bodies.ResponseTruncated` | src/agentx/bodies.rs:543-560 | a Response body cut short of its payload length, or declared one byte short, is refused as Truncated |
| `Bodies.AsWrittenResponseDropsVarBinds` | src/agentx/bodies.rs:551-552 | as written, a response comes back with its bindings dropped, so it differs from the sent one whenever it had bindings; the corrected decoder gives it back whole |
| `Bodies.EmptyResponseExample` | src/agentx/bodies.rs:606-614 | `ResponsePdu::new(1000, [])` encodes to 8 bytes |

## Left out

- I/O: `Read`/`Write` streams become byte sequences and a consumed count. io error kinds and message strings become the `Error` constructors.
- The `Oid` and `Value` types come from modules that are not part of this model. `Oid` is a non-empty sequence of u32. `oid.child(0)` is modelled as appending 0. Any check `Oid::from_slice` makes beyond non-emptiness is not modelled.
- The IndexAllocate, IndexDeallocate, AddAgentCaps and RemoveAgentCaps bodies. They are known as PDU types in the header but have no body codec here.
- The Python bindings (the `#[pyclass]`/`#[pymethods]` items of `src/agentx/pdu.rs:259-278`), `src/lib.rs` and the Python tests.
- `src/agentx/parallel.rs` is not part of this model.
- `Bodies.DecodeGet`: the no-progress `break` of `src/agentx/bodies.rs:279-281` is not modelled. Every range takes at least 8 bytes, so the count always grows and the exit is never taken.
- `Bodies.ParseRegister`, `Bodies.ParseUnregister`: as in the source, whether an upper bound follows is a parameter given by the caller. The INSTANCE_REGISTRATION flag and the header are not consulted.
- `Bodies.ParseResponse`: this corrected decoder takes the payload length, which the source's signature does not have.
- `Lists.ParseList`: the corrected list decoders refuse, as Truncated, an element that would end past the payload length. The source keeps reading past it from the stream.
- `HeaderCodec.Header`: flags are a whole byte, so a header built with undefined bits is representable. Decoding clears those bits, as `from_bits_truncate` does, so only headers with defined flags round-trip exactly.
- Decoders return the consumed count. In the source it is only implicit in the reader's position.

## Findings

| source | as written | input that shows it | evidently intended | confidence | as-written member | corrected member |
|---|---|---|---|---|---|---|
| src/agentx/bodies.rs:17 | `decode_varbinds` adds an estimate (16 + 4 per sub-identifier) instead of the bytes each binding took | two bindings of 1.3.6.1.2.1 to Null: 24 bytes, estimate 40 after the first | count the bytes really read, so every binding in the payload is decoded, and refuse a binding that runs past the payload | not executed | `Lists.AsWrittenVarBindsDropSecond` | `Lists.VarBindListRoundTrip` |
| src/agentx/bodies.rs:276 | the Get decoder adds 8 + 4 per sub-identifier of both ends per range | two ranges 1.3.6.1.2.1 .. 1.3.6.1.2.2: 32 bytes, estimate 56 after the first | count the bytes really read | not executed | `Lists.AsWrittenRangesDropSecond` | `Bodies.GetRoundTrip` |
| src/agentx/bodies.rs:330 | the GetBulk decoder makes the same estimate | the same two ranges after the 4 count bytes | count the bytes really read | not executed | `Bodies.AsWrittenGetBulkDropsSecond` | `Bodies.GetBulkRoundTrip` |
| src/agentx/pdu.rs:27 | the sub-identifier count is cast to u8 and wraps | a 256-component identifier not starting with 1: count 0, decodes as [0] | refuse tails longer than 255 | not executed | `Pdu.AsWrittenCountWraps` | `Pdu.OidTailLimit` |
| src/agentx/pdu.rs:20 | compression also applies when the fifth sub-identifier is 0, but prefix 0 means "no prefix" to the decoder (line 50) | 1.3.6.1.0.5 decodes as 5 | compress only for 1 ≤ X ≤ 255 | not executed | `Pdu.AsWrittenPrefixZeroLosesPrefix` | `Pdu.PrefixZeroRoundTrip` |
| src/agentx/bodies.rs:551-552 | the Response decoder never reads the bindings | any response with one binding comes back with none | read bindings up to the payload length | not executed | `Bodies.AsWrittenResponseDropsVarBinds` | `Bodies.ResponseRoundTrip` |
| src/agentx/pdu.rs:73 | the octet-string length is cast to u32 and wraps | a string of 2^32 bytes is announced as length 0 | refuse strings of 2^32 bytes or more | not executed | `Pdu.AsWrittenLengthWraps` | `Pdu.OctetStringRoundTrip` |
