/** The fixed 20-byte AgentX frame header (RFC 2741 section 6.1).  The
    first four bytes are single bytes; the NETWORK_BYTE_ORDER flag chooses
    big- or little-endian for the four 32-bit words that follow. */
module HeaderCodec {
  import opened Wire

  const HEADER_SIZE: nat := 20
  const AGENTX_VERSION: byte := 1

  datatype PduType =
    | Open | Close | Register | Unregister | Get | GetNext | GetBulk | TestSet
    | CommitSet | UndoSet | CleanupSet | Notify | Ping | IndexAllocate
    | IndexDeallocate | AddAgentCaps | RemoveAgentCaps | Response

  function PduTypeCode(t: PduType): (b: byte)
    ensures 1 <= b <= 18
  {
    match t
    case Open => 1
    case Close => 2
    case Register => 3
    case Unregister => 4
    case Get => 5
    case GetNext => 6
    case GetBulk => 7
    case TestSet => 8
    case CommitSet => 9
    case UndoSet => 10
    case CleanupSet => 11
    case Notify => 12
    case Ping => 13
    case IndexAllocate => 14
    case IndexDeallocate => 15
    case AddAgentCaps => 16
    case RemoveAgentCaps => 17
    case Response => 18
  }

  /** `PduType::try_from`: the type with that code, or the byte itself as
      the error. */
  function PduTypeFromByte(b: byte): (r: Result<PduType>)
    ensures r.Success? <==> 1 <= b <= 18
    ensures r.Success? ==> PduTypeCode(r.value) == b
    ensures r.Failure? ==> r.error == UnknownPduType(b)
  {
    match b
    case 1 => Success(Open)
    case 2 => Success(Close)
    case 3 => Success(Register)
    case 4 => Success(Unregister)
    case 5 => Success(Get)
    case 6 => Success(GetNext)
    case 7 => Success(GetBulk)
    case 8 => Success(TestSet)
    case 9 => Success(CommitSet)
    case 10 => Success(UndoSet)
    case 11 => Success(CleanupSet)
    case 12 => Success(Notify)
    case 13 => Success(Ping)
    case 14 => Success(IndexAllocate)
    case 15 => Success(IndexDeallocate)
    case 16 => Success(AddAgentCaps)
    case 17 => Success(RemoveAgentCaps)
    case 18 => Success(Response)
    case _ => Failure(UnknownPduType(b))
  }

  lemma PduTypeCodeRoundTrip(t: PduType)
    ensures PduTypeFromByte(PduTypeCode(t)) == Success(t)
  {
  }

  // ---- flags ----

  const INSTANCE_REGISTRATION: byte := 0x01
  const NEW_INDEX: byte := 0x02
  const ANY_INDEX: byte := 0x04
  const NON_DEFAULT_CONTEXT: byte := 0x08
  const NETWORK_BYTE_ORDER: byte := 0x10

  /** The five defined flag bits. */
  const ALL_FLAGS: byte := 0x1F

  /** Whether bit 0x10 is set. */
  predicate NetworkByteOrder(flags: byte): (on: bool)
    ensures on ==> flags >= NETWORK_BYTE_ORDER
    ensures NETWORK_BYTE_ORDER <= flags <= ALL_FLAGS ==> on
  {
    (flags / NETWORK_BYTE_ORDER) % 2 == 1
  }

  /** `Flags::from_bits_truncate`: keeps the five defined bits, clears the rest. */
  function TruncateFlags(b: byte): (f: byte)
    ensures f <= ALL_FLAGS
    ensures b <= ALL_FLAGS ==> f == b
    ensures NetworkByteOrder(f) == NetworkByteOrder(b)
  {
    b % (ALL_FLAGS + 1)
  }

  datatype Header = Header(
    version: byte,
    pduType: PduType,
    flags: byte,
    sessionId: u32,
    transactionId: u32,
    packetId: u32,
    payloadLength: u32)

  /** `Header::new`: version 1, network byte order, empty payload. */
  function NewHeader(pduType: PduType, sessionId: u32, transactionId: u32, packetId: u32): (h: Header)
    ensures h.version == AGENTX_VERSION && h.flags == NETWORK_BYTE_ORDER && h.payloadLength == 0
    ensures h.pduType == pduType && h.sessionId == sessionId
    ensures h.transactionId == transactionId && h.packetId == packetId
  {
    Header(AGENTX_VERSION, pduType, NETWORK_BYTE_ORDER, sessionId, transactionId, packetId, 0)
  }

  /** `with_payload_length`: sets the payload length and nothing else. */
  function WithPayloadLength(h: Header, len: u32): (h': Header)
    ensures h'.payloadLength == len
    ensures h'.version == h.version && h'.pduType == h.pduType && h'.flags == h.flags
    ensures h'.sessionId == h.sessionId && h'.transactionId == h.transactionId
    ensures h'.packetId == h.packetId
  {
    h.(payloadLength := len)
  }

  /** `with_flags`: sets the flags and nothing else. */
  function WithFlags(h: Header, flags: byte): (h': Header)
    ensures h'.flags == flags
    ensures h'.version == h.version && h'.pduType == h.pduType
    ensures h'.sessionId == h.sessionId && h'.transactionId == h.transactionId
    ensures h'.packetId == h.packetId && h'.payloadLength == h.payloadLength
  {
    h.(flags := flags)
  }

  /** A 32-bit header word in the byte order the flags select. */
  function Word(x: u32, networkOrder: bool): (r: seq<byte>)
    ensures |r| == 4
  {
    if networkOrder then BE32(x) else LE32(x)
  }

  function ReadWord(s: seq<byte>, networkOrder: bool): u32
    requires |s| >= 4
  {
    if networkOrder then FromBE32(s) else FromLE32(s)
  }

  lemma WordRoundTrip(x: u32, networkOrder: bool, rest: seq<byte>)
    ensures ReadWord(Word(x, networkOrder) + rest, networkOrder) == x
  {
    if networkOrder {
      BE32RoundTrip(x, rest);
    } else {
      LE32RoundTrip(x, rest);
    }
  }

  lemma WordOfBytes(s: seq<byte>, networkOrder: bool)
    requires |s| >= 4
    ensures Word(ReadWord(s, networkOrder), networkOrder) == s[..4]
  {
    if networkOrder {
      BE32OfBytes(s);
    } else {
      LE32OfBytes(s);
    }
  }

  /** `Header::encode`. */
  function EncodeHeader(h: Header): (r: seq<byte>)
    ensures |r| == HEADER_SIZE
  {
    var nbo := NetworkByteOrder(h.flags);
    [h.version, PduTypeCode(h.pduType), h.flags, 0]
      + Word(h.sessionId, nbo) + Word(h.transactionId, nbo)
      + Word(h.packetId, nbo) + Word(h.payloadLength, nbo)
  }

  /** `Header::decode`: needs 20 bytes and a known type byte; the version
      is taken as it is and unknown flag bits are dropped. */
  function DecodeHeader(s: seq<byte>): (r: Result<(Header, nat)>)
    ensures r.Success? ==> r.value.1 == HEADER_SIZE <= |s|
    ensures r.Success? ==> r.value.0.flags <= ALL_FLAGS
  {
    if |s| < HEADER_SIZE then Failure(Truncated)
    else
      var pduType :- PduTypeFromByte(s[1]);
      var flags := TruncateFlags(s[2]);
      var nbo := NetworkByteOrder(flags);
      Success((Header(s[0], pduType, flags,
                      ReadWord(s[4..], nbo), ReadWord(s[8..], nbo),
                      ReadWord(s[12..], nbo), ReadWord(s[16..], nbo)),
               HEADER_SIZE))
  }

  /** The first four bytes never depend on the byte order; the four words
      are big-endian exactly when NETWORK_BYTE_ORDER is set. */
  lemma HeaderLayout(h: Header)
    ensures var r := EncodeHeader(h);
      && r[0] == h.version && r[1] == PduTypeCode(h.pduType) && r[2] == h.flags && r[3] == 0
      && (NetworkByteOrder(h.flags) ==>
            FromBE32(r[4..]) == h.sessionId && FromBE32(r[8..]) == h.transactionId
            && FromBE32(r[12..]) == h.packetId && FromBE32(r[16..]) == h.payloadLength)
      && (!NetworkByteOrder(h.flags) ==>
            FromLE32(r[4..]) == h.sessionId && FromLE32(r[8..]) == h.transactionId
            && FromLE32(r[12..]) == h.packetId && FromLE32(r[16..]) == h.payloadLength)
  {
    var r := EncodeHeader(h);
    var nbo := NetworkByteOrder(h.flags);
    WordsAt(h, r[20..]);
    assert r + [] == r;
  }

  /** The four words of an encoded header, read back at offsets 4, 8, 12
      and 16, whatever follows the header. */
  lemma WordsAt(h: Header, rest: seq<byte>)
    ensures var s := EncodeHeader(h) + rest; var nbo := NetworkByteOrder(h.flags);
      && ReadWord(s[4..], nbo) == h.sessionId
      && ReadWord(s[8..], nbo) == h.transactionId
      && ReadWord(s[12..], nbo) == h.packetId
      && ReadWord(s[16..], nbo) == h.payloadLength
  {
    var s := EncodeHeader(h) + rest;
    var nbo := NetworkByteOrder(h.flags);
    var w0, w1 := Word(h.sessionId, nbo), Word(h.transactionId, nbo);
    var w2, w3 := Word(h.packetId, nbo), Word(h.payloadLength, nbo);
    assert s[4..] == w0 + (w1 + w2 + w3 + rest);
    assert s[8..] == w1 + (w2 + w3 + rest);
    assert s[12..] == w2 + (w3 + rest);
    assert s[16..] == w3 + rest;
    WordRoundTrip(h.sessionId, nbo, w1 + w2 + w3 + rest);
    WordRoundTrip(h.transactionId, nbo, w2 + w3 + rest);
    WordRoundTrip(h.packetId, nbo, w3 + rest);
    WordRoundTrip(h.payloadLength, nbo, rest);
  }

  /** Decoding an encoded header gives it back with the undefined flag bits
      cleared, after exactly 20 bytes. */
  lemma HeaderRoundTrip(h: Header, rest: seq<byte>)
    ensures DecodeHeader(EncodeHeader(h) + rest)
         == Success((h.(flags := TruncateFlags(h.flags)), HEADER_SIZE))
  {
    WordsAt(h, rest);
    PduTypeCodeRoundTrip(h.pduType);
  }

  /** Every header whose flags lie within the five defined bits round-trips
      exactly. */
  lemma HeaderRoundTripExact(h: Header, rest: seq<byte>)
    requires h.flags <= ALL_FLAGS
    ensures DecodeHeader(EncodeHeader(h) + rest) == Success((h, HEADER_SIZE))
  {
    HeaderRoundTrip(h, rest);
  }

  /** Decoding fails exactly when fewer than 20 bytes are available or the
      type byte is outside 1..18, and reports which. */
  lemma DecodeHeaderFailures(s: seq<byte>)
    ensures |s| < HEADER_SIZE ==> DecodeHeader(s) == Failure(Truncated)
    ensures |s| >= HEADER_SIZE && !(1 <= s[1] <= 18) ==> DecodeHeader(s) == Failure(UnknownPduType(s[1]))
    ensures |s| >= HEADER_SIZE && 1 <= s[1] <= 18 ==> DecodeHeader(s).Success?
  {
  }

  /** The other direction: 20 bytes with a known type, defined flags only
      and a zero reserved byte are re-encoded to themselves. */
  lemma HeaderReencode(s: seq<byte>)
    requires |s| >= HEADER_SIZE && 1 <= s[1] <= 18 && s[2] <= ALL_FLAGS && s[3] == 0
    ensures DecodeHeader(s).Success?
    ensures EncodeHeader(DecodeHeader(s).value.0) == s[..HEADER_SIZE]
  {
    var h := DecodeHeader(s).value.0;
    var nbo := NetworkByteOrder(h.flags);
    WordOfBytes(s[4..], nbo);
    WordOfBytes(s[8..], nbo);
    WordOfBytes(s[12..], nbo);
    WordOfBytes(s[16..], nbo);
    assert s[..HEADER_SIZE] == s[..4] + s[4..][..4] + s[8..][..4] + s[12..][..4] + s[16..][..4];
  }

  /** `Header::new(Open, 1, 2, 3).with_payload_length(100)` survives the
      round trip and `new` defaults the flags to 0x10. */
  lemma HeaderExample()
    ensures var h := WithPayloadLength(NewHeader(Open, 1, 2, 3), 100);
      h.flags == 0x10 && DecodeHeader(EncodeHeader(h)) == Success((h, 20))
  {
    var h := WithPayloadLength(NewHeader(Open, 1, 2, 3), 100);
    HeaderRoundTripExact(h, []);
    assert EncodeHeader(h) + [] == EncodeHeader(h);
  }
}
