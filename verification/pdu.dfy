/** The leaf codecs of AgentX (RFC 2741 section 5): object identifiers with
    internet-prefix compression, padded octet strings, the thirteen-variant
    typed value, search ranges and variable bindings.

    A decoder reads from the front of `s`, the bytes still available to the
    reader, and answers the decoded entity together with the number of bytes
    it consumed.  An encoder answers the bytes it writes. */
module Pdu {
  import opened Wire

  /** An object identifier: a non-empty sequence of 32-bit sub-identifiers. */
  type Oid = s: seq<u32> | |s| >= 1 witness [0]

  /** The most sub-identifiers the one-byte count of the wire form can carry. */
  const MAX_SUBIDS: nat := 255

  /** Octet-string lengths are written as a 32-bit field. */
  const MAX_OCTETS: nat := 0x1_0000_0000

  /** Number of zero bytes that bring `n` up to a 4-byte boundary. */
  function PadTo4(n: nat): (p: nat)
    ensures p < 4 && (n + p) % 4 == 0
    ensures p == 0 <==> n % 4 == 0
  {
    (4 - n % 4) % 4
  }

  // =====================================================================
  // Object identifiers (RFC 2741 section 5.1)
  // =====================================================================

  /** Whether `oid` starts 1.3.6.1.X with X usable as a prefix byte.  X = 0 is
      excluded because a zero prefix byte means "no prefix" on the wire. */
  predicate Compressible(oid: seq<u32>) {
    |oid| >= 5 && oid[0] == 1 && oid[1] == 3 && oid[2] == 6 && oid[3] == 1
    && 1 <= oid[4] <= 255
  }

  function OidPrefix(oid: Oid): byte {
    if Compressible(oid) then oid[4] else 0
  }

  /** The sub-identifiers written literally after the 4-byte OID header. */
  function OidTail(oid: Oid): seq<u32> {
    if Compressible(oid) then oid[5..] else oid
  }

  function IncludeByte(inclusive: bool): byte {
    if inclusive then 1 else 0
  }

  /** Sub-identifiers, each as a big-endian 32-bit word. */
  function SubIdBytes(xs: seq<u32>): (r: seq<byte>)
    ensures |r| == 4 * |xs|
  {
    if xs == [] then [] else BE32(xs[0]) + SubIdBytes(xs[1..])
  }

  /** The wire form of `oid`: count, prefix, inclusive flag, a reserved zero,
      then the tail sub-identifiers.  A tail longer than the count byte can
      express is refused. */
  function OidBytes(oid: Oid, inclusive: bool): (r: Result<seq<byte>>)
    ensures r.Success? <==> |OidTail(oid)| <= MAX_SUBIDS
    ensures r.Failure? ==> r.error == OidTooLong
    ensures r.Success? ==> |r.value| == 4 + 4 * |OidTail(oid)|
  {
    var tail := OidTail(oid);
    if |tail| > MAX_SUBIDS then Failure(OidTooLong)
    else Success([|tail|, OidPrefix(oid), IncludeByte(inclusive), 0] + SubIdBytes(tail))
  }

  /** The sub-identifiers a non-zero prefix byte stands for. */
  function PrefixParts(prefix: byte): seq<u32> {
    if prefix != 0 then [1, 3, 6, 1, prefix] else []
  }

  /** The first `k` big-endian 32-bit words of `s`. */
  function SubIdsAt(s: seq<byte>, k: nat): (xs: seq<u32>)
    requires |s| >= 4 * k
    ensures |xs| == k
  {
    if k == 0 then [] else [FromBE32(s)] + SubIdsAt(s[4..], k - 1)
  }

  /** Decoding an OID: the identifier, its inclusive flag, and the bytes used.
      When neither a prefix nor any sub-identifier is present the result is
      the one-component sentinel [0]. */
  function ParseOid(s: seq<byte>): (r: Result<(Oid, bool, nat)>)
    ensures r.Success? ==> |s| >= 4 && r.value.2 == 4 + 4 * s[0] <= |s|
    ensures r.Success? ==> r.value.1 == (s[2] != 0)
    ensures r.Failure? ==> r.error == Truncated
  {
    if |s| < 4 then Failure(Truncated)
    else
      var count: nat := s[0];
      if |s| < 4 + 4 * count then Failure(Truncated)
      else
        var parts := PrefixParts(s[1]) + SubIdsAt(s[4..], count);
        var oid: Oid := if parts == [] then [0] else parts;
        Success((oid, s[2] != 0, 4 + 4 * count))
  }

  /** `encode_oid`: writes the 4-byte header, then loops over the tail
      writing one big-endian word per sub-identifier. */
  method EncodeOid(oid: Oid, inclusive: bool) returns (r: Result<seq<byte>>)
    ensures r == OidBytes(oid, inclusive)
  {
    var prefix: byte, start := 0, 0;
    if Compressible(oid) {
      prefix, start := oid[4], 5;
    }
    assert prefix == OidPrefix(oid) && oid[start..] == OidTail(oid);
    var count := |oid| - start;
    if count > MAX_SUBIDS {
      return Failure(OidTooLong);
    }
    var header := [count as byte, prefix, IncludeByte(inclusive), 0];
    var out := header;
    var i := start;
    while i < |oid|
      invariant start <= i <= |oid|
      invariant out == header + SubIdBytes(oid[start..i])
    {
      var done := oid[start..i];
      SubIdBytesAppend(done, oid[i]);
      assert oid[start..i + 1] == done + [oid[i]];
      assert header + SubIdBytes(done + [oid[i]]) == out + BE32(oid[i]);
      out := out + BE32(oid[i]);
      i := i + 1;
    }
    assert oid[start..i] == oid[start..];
    return Success(out);
  }

  /** `decode_oid`: reads the 4-byte header, seeds the parts with the
      expanded prefix, then loops reading `count` big-endian words. */
  method DecodeOid(s: seq<byte>) returns (r: Result<(Oid, bool, nat)>)
    ensures r == ParseOid(s)
  {
    if |s| < 4 {
      return Failure(Truncated);
    }
    var count: nat := s[0];
    var inclusive := s[2] != 0;
    var parts := PrefixParts(s[1]);
    var pos: nat := 4;
    var i: nat := 0;
    while i < count
      invariant i <= count && pos == 4 + 4 * i && pos <= |s|
      invariant parts == PrefixParts(s[1]) + SubIdsAt(s[4..], i)
    {
      if |s| < pos + 4 {
        return Failure(Truncated);
      }
      SubIdsAtGrow(s[4..], i);
      assert s[4..][4 * i..] == s[pos..];
      parts := parts + [FromBE32(s[pos..pos + 4])];
      pos := pos + 4;
      i := i + 1;
    }
    var oid: Oid := if parts == [] then [0] else parts;
    return Success((oid, inclusive, pos));
  }

  lemma {:induction false} SubIdBytesAppend(xs: seq<u32>, x: u32)
    ensures SubIdBytes(xs + [x]) == SubIdBytes(xs) + BE32(x)
  {
    if xs != [] {
      assert (xs + [x])[1..] == xs[1..] + [x];
      SubIdBytesAppend(xs[1..], x);
    }
  }

  lemma {:induction false} SubIdsAtGrow(s: seq<byte>, k: nat)
    requires |s| >= 4 * k + 4
    ensures SubIdsAt(s, k + 1) == SubIdsAt(s, k) + [FromBE32(s[4 * k..])]
  {
    if k > 0 {
      SubIdsAtGrow(s[4..], k - 1);
      assert s[4..][4 * (k - 1)..] == s[4 * k..];
    }
  }

  lemma {:induction false} SubIdsRoundTrip(xs: seq<u32>, rest: seq<byte>)
    ensures SubIdsAt(SubIdBytes(xs) + rest, |xs|) == xs
  {
    if xs != [] {
      var s := SubIdBytes(xs) + rest;
      assert s == BE32(xs[0]) + (SubIdBytes(xs[1..]) + rest);
      BE32RoundTrip(xs[0], SubIdBytes(xs[1..]) + rest);
      assert s[4..] == SubIdBytes(xs[1..]) + rest;
      SubIdsRoundTrip(xs[1..], rest);
    }
  }

  /** The `i`-th big-endian word of SubIdBytes(xs) is xs[i]. */
  lemma {:induction false} SubIdBytesAt(xs: seq<u32>, i: nat, rest: seq<byte>)
    requires i < |xs|
    ensures FromBE32((SubIdBytes(xs) + rest)[4 * i..]) == xs[i]
  {
    var s := SubIdBytes(xs) + rest;
    assert s == BE32(xs[0]) + (SubIdBytes(xs[1..]) + rest);
    if i == 0 {
      BE32RoundTrip(xs[0], SubIdBytes(xs[1..]) + rest);
    } else {
      SubIdBytesAt(xs[1..], i - 1, rest);
      assert s[4 * i..] == (SubIdBytes(xs[1..]) + rest)[4 * (i - 1)..];
    }
  }

  /** An encodable OID decodes back to itself and its inclusive flag,
      consuming exactly the encoding, whatever follows it. */
  lemma OidRoundTrip(oid: Oid, inclusive: bool, rest: seq<byte>)
    requires OidBytes(oid, inclusive).Success?
    ensures var enc := OidBytes(oid, inclusive).value;
      ParseOid(enc + rest) == Success((oid, inclusive, |enc|))
  {
    var enc := OidBytes(oid, inclusive).value;
    var tail := OidTail(oid);
    var s := enc + rest;
    assert s[0] == |tail| && s[1] == OidPrefix(oid) && s[2] == IncludeByte(inclusive);
    assert s[4..] == SubIdBytes(tail) + rest;
    SubIdsRoundTrip(tail, rest);
    var parts := PrefixParts(s[1]) + SubIdsAt(s[4..], |tail|);
    if Compressible(oid) {
      assert PrefixParts(s[1]) == oid[..5];
      assert parts == oid[..5] + oid[5..];
      assert oid[..5] + oid[5..] == oid;
    } else {
      assert parts == oid;
    }
  }

  /** A strict prefix of an OID encoding is a truncated input. */
  lemma OidTruncated(oid: Oid, inclusive: bool, k: nat)
    requires OidBytes(oid, inclusive).Success?
    requires k < |OidBytes(oid, inclusive).value|
    ensures ParseOid(OidBytes(oid, inclusive).value[..k]) == Failure(Truncated)
  {
    var enc := OidBytes(oid, inclusive).value;
    if k >= 4 {
      assert enc[..k][0] == enc[0] == |OidTail(oid)|;
    }
  }

  /** The compression rule: a 1.3.6.1.X identifier with 1 <= X <= 255 sends X
      in the prefix byte and only the sub-identifiers after the fifth; any
      other identifier sends prefix 0 and every sub-identifier. */
  lemma OidLayout(oid: Oid, inclusive: bool)
    requires OidBytes(oid, inclusive).Success?
    ensures var enc := OidBytes(oid, inclusive).value;
      && (Compressible(oid) ==> enc[0] == |oid| - 5 && enc[1] == oid[4])
      && (!Compressible(oid) ==> enc[0] == |oid| && enc[1] == 0)
      && enc[2] == (if inclusive then 1 else 0) && enc[3] == 0
      && forall i: nat :: i < enc[0] ==>
           FromBE32(enc[4 + 4 * i ..]) == oid[|oid| - enc[0] + i]
  {
    var enc := OidBytes(oid, inclusive).value;
    var tail := OidTail(oid);
    assert enc == [|tail|, OidPrefix(oid), IncludeByte(inclusive), 0] + SubIdBytes(tail);
    forall i: nat | i < enc[0]
      ensures FromBE32(enc[4 + 4 * i ..]) == oid[|oid| - enc[0] + i]
    {
      SubIdBytesAt(tail, i, []);
      assert enc[4 + 4 * i ..] == (SubIdBytes(tail) + [])[4 * i..];
    }
  }

  /** The tail limit: 255 sub-identifiers after compression still encode,
      256 are refused instead of wrapping the count byte. */
  lemma OidTailLimit(oid: Oid, inclusive: bool)
    ensures |OidTail(oid)| == 255 ==> OidBytes(oid, inclusive).Success?
    ensures |OidTail(oid)| == 256 ==> OidBytes(oid, inclusive) == Failure(OidTooLong)
  {
  }

  /** The two-byte header of an encoding with neither prefix nor count
      decodes to the sentinel identifier [0]. */
  lemma NullOidSentinel(inclusive: byte, reserved: byte, rest: seq<byte>)
    ensures ParseOid([0, 0, inclusive, reserved] + rest) == Success(([0], inclusive != 0, 4))
  {
    assert ([0, 0, inclusive, reserved] + rest)[4..][..0] == [];
  }

  /** `1.3.6.1.4.1.12345` with inclusive set: count 2, prefix 4, 12 bytes. */
  lemma EnterpriseOidExample()
    ensures var enc := OidBytes([1, 3, 6, 1, 4, 1, 12345], true);
      enc.Success? && |enc.value| == 12
      && enc.value[0] == 2 && enc.value[1] == 4 && enc.value[2] == 1
  {
  }

  // --- encode_oid as written (see README, Findings) ---

  /** The split `encode_oid` makes as written: it also compresses when the
      fifth sub-identifier is 0. */
  function AsWrittenSplit(oid: Oid): (byte, seq<u32>) {
    if |oid| >= 5 && oid[0] == 1 && oid[1] == 3 && oid[2] == 6 && oid[3] == 1
      && oid[4] <= 255
    then (oid[4], oid[5..])
    else (0, oid)
  }

  /** `encode_oid` as written: the count is cast to one byte, so it wraps. */
  function OidBytesAsWritten(oid: Oid, inclusive: bool): (r: seq<byte>)
    ensures |r| == 4 + 4 * |AsWrittenSplit(oid).1|
    ensures r[0] == |AsWrittenSplit(oid).1| % 256
  {
    var (prefix, tail) := AsWrittenSplit(oid);
    [|tail| % 256, prefix, IncludeByte(inclusive), 0] + SubIdBytes(tail)
  }

  /** As written, 1.3.6.1.0.5 is sent with prefix 0 and comes back as 5. */
  lemma AsWrittenPrefixZeroLosesPrefix()
    ensures OidBytesAsWritten([1, 3, 6, 1, 0, 5], false) == [1, 0, 0, 0, 0, 0, 0, 5]
    ensures ParseOid(OidBytesAsWritten([1, 3, 6, 1, 0, 5], false)) == Success(([5], false, 8))
  {
    var enc := OidBytesAsWritten([1, 3, 6, 1, 0, 5], false);
    assert AsWrittenSplit([1, 3, 6, 1, 0, 5]) == (0, [5]);
    assert SubIdBytes([5]) == BE32(5) + SubIdBytes([]);
    assert enc == [1, 0, 0, 0, 0, 0, 0, 5];
    assert enc[4..] == [0, 0, 0, 5];
    assert FromBE32(enc[4..]) == 5;
    assert SubIdsAt(enc[4..], 1) == [5] + SubIdsAt(enc[4..][4..], 0);
    assert PrefixParts(enc[1]) + SubIdsAt(enc[4..], 1) == [5];
  }

  /** As written, a 256-component identifier without the internet prefix is
      sent with count 0 and decodes as the sentinel [0] after 4 bytes,
      although 1028 bytes were written. */
  lemma AsWrittenCountWraps(oid: Oid, inclusive: bool)
    requires |oid| == 256 && oid[0] != 1
    ensures |OidBytesAsWritten(oid, inclusive)| == 1028
    ensures ParseOid(OidBytesAsWritten(oid, inclusive)) == Success(([0], inclusive, 4))
  {
    var enc := OidBytesAsWritten(oid, inclusive);
    assert enc[0] == 0 && enc[1] == 0 && enc[2] == IncludeByte(inclusive);
    assert enc[4..][..0] == [];
  }

  /** With the corrected rule 1.3.6.1.0.5 is sent uncompressed and comes
      back whole. */
  lemma PrefixZeroRoundTrip()
    ensures OidBytes([1, 3, 6, 1, 0, 5], false).Success?
    ensures var enc := OidBytes([1, 3, 6, 1, 0, 5], false).value;
      enc[1] == 0 && ParseOid(enc) == Success(([1, 3, 6, 1, 0, 5], false, 28))
  {
    OidRoundTrip([1, 3, 6, 1, 0, 5], false, []);
    assert OidBytes([1, 3, 6, 1, 0, 5], false).value + [] == OidBytes([1, 3, 6, 1, 0, 5], false).value;
  }

  // =====================================================================
  // Octet strings (RFC 2741 section 5.3)
  // =====================================================================

  /** A 4-byte big-endian length, the bytes, then zero padding to a 4-byte
      boundary.  A length that does not fit in the 32-bit field is refused. */
  function OctetStringBytes(data: seq<byte>): (r: Result<seq<byte>>)
    ensures r.Success? <==> |data| < MAX_OCTETS
    ensures r.Failure? ==> r.error == StringTooLong
    ensures r.Success? ==> |r.value| == 4 + |data| + PadTo4(|data|)
  {
    if |data| >= MAX_OCTETS then Failure(StringTooLong)
    else Success(BE32(|data|) + data + Zeros(PadTo4(|data|)))
  }

  /** Reads the length, that many bytes, and the padding, which is skipped
      without being checked. */
  function ParseOctetString(s: seq<byte>): (r: Result<(seq<byte>, nat)>)
    ensures r.Success? ==> 4 <= r.value.1 <= |s|
    ensures r.Success? ==> r.value.1 == 4 + |r.value.0| + PadTo4(|r.value.0|)
    ensures r.Failure? ==> r.error == Truncated
  {
    if |s| < 4 then Failure(Truncated)
    else
      var len := FromBE32(s);
      if |s| < 4 + len + PadTo4(len) then Failure(Truncated)
      else Success((s[4..4 + len], 4 + len + PadTo4(len)))
  }

  /** `encode_octet_string`: writes the length and the data, then loops
      writing one zero byte per padding byte. */
  method EncodeOctetString(data: seq<byte>) returns (r: Result<seq<byte>>)
    ensures r == OctetStringBytes(data)
  {
    if |data| >= MAX_OCTETS {
      return Failure(StringTooLong);
    }
    var out := BE32(|data|) + data;
    var padding := PadTo4(|data|);
    var k := 0;
    while k < padding
      invariant k <= padding
      invariant out == BE32(|data|) + data + Zeros(k)
    {
      ZerosGrow(k);
      out := out + [0];
      k := k + 1;
    }
    return Success(out);
  }

  /** Encoded and decoded octet strings both end on a 4-byte boundary. */
  lemma OctetStringAligned(data: seq<byte>, s: seq<byte>)
    ensures OctetStringBytes(data).Success? ==> |OctetStringBytes(data).value| % 4 == 0
    ensures ParseOctetString(s).Success? ==> ParseOctetString(s).value.1 % 4 == 0
  {
    var n := |data|;
    assert (n + PadTo4(n)) % 4 == 0;
    assert (4 + n + PadTo4(n)) % 4 == 0;
    var r := ParseOctetString(s);
    if r.Success? {
      var m := |r.value.0|;
      assert (m + PadTo4(m)) % 4 == 0;
      assert (4 + m + PadTo4(m)) % 4 == 0;
    }
  }

  /** The encoding is the big-endian length, the data, then only zeros. */
  lemma OctetStringLayout(data: seq<byte>)
    requires |data| < MAX_OCTETS
    ensures var enc := OctetStringBytes(data).value;
      && FromBE32(enc) == |data|
      && enc[4..4 + |data|] == data
      && forall i :: 4 + |data| <= i < |enc| ==> enc[i] == 0
  {
    BE32RoundTrip(|data|, data + Zeros(PadTo4(|data|)));
    assert OctetStringBytes(data).value == BE32(|data|) + (data + Zeros(PadTo4(|data|)));
  }

  lemma OctetStringRoundTrip(data: seq<byte>, rest: seq<byte>)
    requires OctetStringBytes(data).Success?
    ensures var enc := OctetStringBytes(data).value;
      ParseOctetString(enc + rest) == Success((data, |enc|))
  {
    var enc := OctetStringBytes(data).value;
    var s := enc + rest;
    BE32RoundTrip(|data|, data + Zeros(PadTo4(|data|)) + rest);
    assert s == BE32(|data|) + (data + Zeros(PadTo4(|data|)) + rest);
    assert s[4..4 + |data|] == data;
  }

  /** Any strict prefix of an encoding is refused as truncated; in particular
      a length field alone, with no data after it. */
  lemma OctetStringTruncated(data: seq<byte>, k: nat)
    requires OctetStringBytes(data).Success?
    requires k < |OctetStringBytes(data).value|
    ensures ParseOctetString(OctetStringBytes(data).value[..k]) == Failure(Truncated)
  {
    var enc := OctetStringBytes(data).value;
    if k >= 4 {
      OctetStringLayout(data);
      assert FromBE32(enc[..k]) == FromBE32(enc);
    }
  }

  /** "hello" takes 4 + 5 + 3 = 12 bytes. */
  lemma HelloEncodesTo12Bytes()
    ensures var enc := OctetStringBytes(['h' as byte, 'e' as byte, 'l' as byte, 'l' as byte, 'o' as byte]);
      enc.Success? && |enc.value| == 12
  {
  }

  // --- encode_octet_string as written (see README, Findings) ---

  /** `encode_octet_string` as written: the length is cast to 32 bits. */
  function OctetStringBytesAsWritten(data: seq<byte>): (r: seq<byte>)
    ensures |r| == 4 + |data| + PadTo4(|data|)
  {
    BE32(|data| % MAX_OCTETS) + data + Zeros(PadTo4(|data|))
  }

  /** As written, a string of exactly 2^32 bytes is announced as length 0 and
      decodes as the empty string after 4 bytes. */
  lemma AsWrittenLengthWraps(data: seq<byte>, rest: seq<byte>)
    requires |data| == MAX_OCTETS
    ensures ParseOctetString(OctetStringBytesAsWritten(data) + rest) == Success(([], 4))
    ensures OctetStringBytes(data) == Failure(StringTooLong)
  {
    var s := OctetStringBytesAsWritten(data) + rest;
    assert s[..4] == [0, 0, 0, 0];
  }

  // =====================================================================
  // Typed values (RFC 2741 section 5.4)
  // =====================================================================

  datatype Value =
    | Integer(int32: i32)
    | OctetString(octets: seq<byte>)
    | Null
    | ObjectIdentifier(oid: Oid)
    | IpAddress(a: byte, b: byte, c: byte, d: byte)
    | Counter32(counter: u32)
    | Gauge32(gauge: u32)
    | TimeTicks(ticks: u32)
    | Opaque(blob: seq<byte>)
    | Counter64(counter64: u64)
    | NoSuchObject
    | NoSuchInstance
    | EndOfMibView

  datatype ValueType =
    | IntegerType | OctetStringType | NullType | ObjectIdentifierType
    | IpAddressType | Counter32Type | Gauge32Type | TimeTicksType | OpaqueType
    | Counter64Type | NoSuchObjectType | NoSuchInstanceType | EndOfMibViewType

  /** The type codes of RFC 2741 section 5.4. */
  const VALUE_TYPE_CODES: set<u16> := {2, 4, 5, 6, 64, 65, 66, 67, 68, 70, 128, 129, 130}

  function TypeCode(t: ValueType): (c: u16)
    ensures c in VALUE_TYPE_CODES
  {
    match t
    case IntegerType => 2
    case OctetStringType => 4
    case NullType => 5
    case ObjectIdentifierType => 6
    case IpAddressType => 64
    case Counter32Type => 65
    case Gauge32Type => 66
    case TimeTicksType => 67
    case OpaqueType => 68
    case Counter64Type => 70
    case NoSuchObjectType => 128
    case NoSuchInstanceType => 129
    case EndOfMibViewType => 130
  }

  function TypeOf(v: Value): ValueType {
    match v
    case Integer(_) => IntegerType
    case OctetString(_) => OctetStringType
    case Null => NullType
    case ObjectIdentifier(_) => ObjectIdentifierType
    case IpAddress(_, _, _, _) => IpAddressType
    case Counter32(_) => Counter32Type
    case Gauge32(_) => Gauge32Type
    case TimeTicks(_) => TimeTicksType
    case Opaque(_) => OpaqueType
    case Counter64(_) => Counter64Type
    case NoSuchObject => NoSuchObjectType
    case NoSuchInstance => NoSuchInstanceType
    case EndOfMibView => EndOfMibViewType
  }

  /** Distinct types have distinct codes, so the code identifies the type. */
  lemma TypeCodeInjective(t: ValueType, u: ValueType)
    ensures TypeCode(t) == TypeCode(u) ==> t == u
  {
  }

  /** The variant payload written after the 4-byte value header.  Only the
      variable-length payloads can fail; the fixed ones have their widths. */
  function ValuePayload(v: Value): (r: Result<seq<byte>>)
    ensures r.Failure? ==> v.OctetString? || v.Opaque? || v.ObjectIdentifier?
    ensures r.Success? && (v.Integer? || v.IpAddress? || v.Counter32? || v.Gauge32? || v.TimeTicks?)
         ==> |r.value| == 4
    ensures r.Success? && v.Counter64? ==> |r.value| == 8
    ensures r.Success? && (v.Null? || v.NoSuchObject? || v.NoSuchInstance? || v.EndOfMibView?)
         ==> r.value == []
  {
    match v
    case Integer(x) => Success(BE32(I32Bits(x)))
    case OctetString(o) => OctetStringBytes(o)
    case Null => Success([])
    case ObjectIdentifier(oid) => OidBytes(oid, false)
    case IpAddress(a, b, c, d) => Success([a, b, c, d])
    case Counter32(x) => Success(BE32(x))
    case Gauge32(x) => Success(BE32(x))
    case TimeTicks(x) => Success(BE32(x))
    case Opaque(o) => OctetStringBytes(o)
    case Counter64(x) => Success(BE64(x))
    case NoSuchObject => Success([])
    case NoSuchInstance => Success([])
    case EndOfMibView => Success([])
  }

  /** `encode_value`: big-endian type code, two reserved zero bytes, payload. */
  function ValueBytes(v: Value): (r: Result<seq<byte>>)
    ensures r.Success? ==> |r.value| >= 4 && FromBE16(r.value) == TypeCode(TypeOf(v))
    ensures r.Success? ==> r.value[2] == 0 && r.value[3] == 0
  {
    var payload :- ValuePayload(v);
    BE16RoundTrip(TypeCode(TypeOf(v)), [0, 0] + payload);
    Success(BE16(TypeCode(TypeOf(v))) + [0, 0] + payload)
  }

  /** `decode_value`: reads the 4-byte header, then the payload its type
      code calls for. */
  function ParseValue(s: seq<byte>): (r: Result<(Value, nat)>)
    ensures r.Success? ==> 4 <= r.value.1 <= |s|
  {
    if |s| < 4 then Failure(Truncated)
    else
      var p :- ParsePayload(FromBE16(s), s[4..]);
      Success((p.0, 4 + p.1))
  }

  /** The payload decoder for each type code; any code outside the section
      5.4 table is refused. */
  function ParsePayload(code: u16, body: seq<byte>): (r: Result<(Value, nat)>)
    ensures r.Success? ==> r.value.1 <= |body|
  {
    match code
    case 2 =>
      if |body| < 4 then Failure(Truncated)
      else Success((Integer(I32FromBits(FromBE32(body))), 4))
    case 4 =>
      var o :- ParseOctetString(body);
      Success((OctetString(o.0), o.1))
    case 5 => Success((Null, 0))
    case 6 =>
      var o :- ParseOid(body);
      Success((ObjectIdentifier(o.0), o.2))
    case 64 =>
      if |body| < 4 then Failure(Truncated)
      else Success((IpAddress(body[0], body[1], body[2], body[3]), 4))
    case 65 =>
      if |body| < 4 then Failure(Truncated) else Success((Counter32(FromBE32(body)), 4))
    case 66 =>
      if |body| < 4 then Failure(Truncated) else Success((Gauge32(FromBE32(body)), 4))
    case 67 =>
      if |body| < 4 then Failure(Truncated) else Success((TimeTicks(FromBE32(body)), 4))
    case 68 =>
      var o :- ParseOctetString(body);
      Success((Opaque(o.0), o.1))
    case 70 =>
      if |body| < 8 then Failure(Truncated) else Success((Counter64(FromBE64(body)), 8))
    case 128 => Success((NoSuchObject, 0))
    case 129 => Success((NoSuchInstance, 0))
    case 130 => Success((EndOfMibView, 0))
    case _ => Failure(UnknownValueType(code))
  }

  /** A decoded value with its header and payload split apart. */
  lemma ValueBytesSplit(v: Value, rest: seq<byte>)
    requires ValueBytes(v).Success?
    ensures var s := ValueBytes(v).value + rest;
      |s| >= 4 && FromBE16(s) == TypeCode(TypeOf(v))
      && s[4..] == ValuePayload(v).value + rest
  {
    var s := ValueBytes(v).value + rest;
    var payload := ValuePayload(v).value;
    assert s == BE16(TypeCode(TypeOf(v))) + ([0, 0] + payload + rest);
    BE16RoundTrip(TypeCode(TypeOf(v)), [0, 0] + payload + rest);
  }

  /** Every encodable value of each of the thirteen variants decodes back to
      itself, consuming exactly its encoding. */
  lemma ValueRoundTrip(v: Value, rest: seq<byte>)
    requires ValueBytes(v).Success?
    ensures var enc := ValueBytes(v).value;
      ParseValue(enc + rest) == Success((v, |enc|))
  {
    var enc := ValueBytes(v).value;
    var payload := ValuePayload(v).value;
    ValueBytesSplit(v, rest);
    PayloadRoundTrip(v, rest);
    assert |enc| == 4 + |payload|;
  }

  /** Each variant's payload decoder inverts its payload encoder. */
  lemma PayloadRoundTrip(v: Value, rest: seq<byte>)
    requires ValuePayload(v).Success?
    ensures var payload := ValuePayload(v).value;
      ParsePayload(TypeCode(TypeOf(v)), payload + rest) == Success((v, |payload|))
  {
    if v.OctetString? || v.Opaque? || v.ObjectIdentifier? {
      VariablePayloadRoundTrip(v, rest);
    } else if v.Integer? || v.IpAddress? || v.Counter32? || v.Gauge32? || v.TimeTicks? || v.Counter64? {
      FixedPayloadRoundTrip(v, rest);
    } else {
      assert ValuePayload(v) == Success([]);
    }
  }

  /** The fixed-width payloads: one or two big-endian words. */
  lemma FixedPayloadRoundTrip(v: Value, rest: seq<byte>)
    requires v.Integer? || v.IpAddress? || v.Counter32? || v.Gauge32? || v.TimeTicks? || v.Counter64?
    ensures var payload := ValuePayload(v).value;
      ParsePayload(TypeCode(TypeOf(v)), payload + rest) == Success((v, |payload|))
  {
    match v
    case Integer(x) =>
      BE32RoundTrip(I32Bits(x), rest);
      I32BitsInverse(x);
    case IpAddress(a, b, c, d) =>
    case Counter32(x) =>
      BE32RoundTrip(x, rest);
    case Gauge32(x) =>
      BE32RoundTrip(x, rest);
    case TimeTicks(x) =>
      BE32RoundTrip(x, rest);
    case Counter64(x) =>
      BE64RoundTrip(x, rest);
  }

  /** The variable-width payloads: an octet string or an identifier. */
  lemma VariablePayloadRoundTrip(v: Value, rest: seq<byte>)
    requires v.OctetString? || v.Opaque? || v.ObjectIdentifier?
    requires ValuePayload(v).Success?
    ensures var payload := ValuePayload(v).value;
      ParsePayload(TypeCode(TypeOf(v)), payload + rest) == Success((v, |payload|))
  {
    match v
    case OctetString(o) =>
      OctetStringRoundTrip(o, rest);
    case Opaque(o) =>
      OctetStringRoundTrip(o, rest);
    case ObjectIdentifier(oid) =>
      OidRoundTrip(oid, false, rest);
  }

  /** A strict prefix of a value encoding is a truncated input. */
  lemma ValueTruncated(v: Value, k: nat)
    requires ValueBytes(v).Success?
    requires k < |ValueBytes(v).value|
    ensures ParseValue(ValueBytes(v).value[..k]) == Failure(Truncated)
  {
    var enc := ValueBytes(v).value;
    var s := enc[..k];
    if k >= 4 {
      ValueBytesSplit(v, []);
      assert enc + [] == enc;
      var payload := ValuePayload(v).value;
      assert FromBE16(s) == FromBE16(enc);
      assert s[4..] == payload[..k - 4];
      PayloadTruncated(v, k - 4);
    }
  }

  /** A strict prefix of a payload is refused by the payload decoder. */
  lemma PayloadTruncated(v: Value, k: nat)
    requires ValuePayload(v).Success?
    requires k < |ValuePayload(v).value|
    ensures ParsePayload(TypeCode(TypeOf(v)), ValuePayload(v).value[..k]) == Failure(Truncated)
  {
    match v
    case OctetString(o) =>
      OctetStringTruncated(o, k);
    case Opaque(o) =>
      OctetStringTruncated(o, k);
    case ObjectIdentifier(oid) =>
      OidTruncated(oid, false, k);
    case _ =>
      FixedPayloadTruncated(v, k);
  }

  lemma FixedPayloadTruncated(v: Value, k: nat)
    requires !(v.OctetString? || v.Opaque? || v.ObjectIdentifier?)
    requires k < |ValuePayload(v).value|
    ensures ParsePayload(TypeCode(TypeOf(v)), ValuePayload(v).value[..k]) == Failure(Truncated)
  {
  }

  /** Decoding fails with UnknownValueType exactly for the codes outside the
      section 5.4 table. */
  lemma UnknownValueTypeExactly(s: seq<byte>)
    requires |s| >= 4
    ensures ParseValue(s) == Failure(UnknownValueType(FromBE16(s)))
      <==> FromBE16(s) !in VALUE_TYPE_CODES
  {
  }

  /** `Integer(-12345)` and `Counter64(u64::MAX)` survive the round trip. */
  lemma ValueExamples()
    ensures ParseValue(ValueBytes(Integer(-12345)).value).value.0 == Integer(-12345)
    ensures ParseValue(ValueBytes(Counter64(0xFFFF_FFFF_FFFF_FFFF)).value).value.0
         == Counter64(0xFFFF_FFFF_FFFF_FFFF)
  {
    ValueRoundTrip(Integer(-12345), []);
    assert ValueBytes(Integer(-12345)).value + [] == ValueBytes(Integer(-12345)).value;
    ValueRoundTrip(Counter64(0xFFFF_FFFF_FFFF_FFFF), []);
    assert ValueBytes(Counter64(0xFFFF_FFFF_FFFF_FFFF)).value + []
        == ValueBytes(Counter64(0xFFFF_FFFF_FFFF_FFFF)).value;
  }

  // =====================================================================
  // Search ranges (RFC 2741 section 5.2) and variable bindings
  // =====================================================================

  /** A range of identifiers; `inclusive` belongs to the start identifier. */
  datatype SearchRange = SearchRange(start: Oid, end: Oid, inclusive: bool)

  /** A variable binding: an identifier and its value. */
  datatype VarBind = VarBind(oid: Oid, value: Value)

  /** The start with its inclusive flag, then the end with inclusive false. */
  function SearchRangeBytes(r: SearchRange): (e: Result<seq<byte>>)
    ensures e.Success? <==> OidBytes(r.start, r.inclusive).Success? && OidBytes(r.end, false).Success?
    ensures e.Success? ==> var n := |OidBytes(r.start, r.inclusive).value|;
      && 8 <= n + 4 <= |e.value|
      && e.value[2] == IncludeByte(r.inclusive)
      && e.value[n + 2] == 0
  {
    var start :- OidBytes(r.start, r.inclusive);
    var end :- OidBytes(r.end, false);
    Success(start + end)
  }

  /** Reads two identifiers; the end identifier's inclusive flag is dropped. */
  function ParseSearchRange(s: seq<byte>): (r: Result<(SearchRange, nat)>)
    ensures r.Success? ==> 8 <= r.value.1 <= |s|
  {
    var start :- ParseOid(s);
    var end :- ParseOid(s[start.2..]);
    Success((SearchRange(start.0, end.0, start.1), start.2 + end.2))
  }

  /** The identifier with inclusive false, then the value. */
  function VarBindBytes(vb: VarBind): (e: Result<seq<byte>>)
    ensures e.Success? <==> OidBytes(vb.oid, false).Success? && ValueBytes(vb.value).Success?
    ensures e.Success? ==> |e.value| >= 8 && e.value[2] == 0
  {
    var oid :- OidBytes(vb.oid, false);
    var value :- ValueBytes(vb.value);
    Success(oid + value)
  }

  function ParseVarBind(s: seq<byte>): (r: Result<(VarBind, nat)>)
    ensures r.Success? ==> 8 <= r.value.1 <= |s|
  {
    var oid :- ParseOid(s);
    var value :- ParseValue(s[oid.2..]);
    Success((VarBind(oid.0, value.0), oid.2 + value.1))
  }

  /** A range parse is its two identifier parses, one after the other. */
  lemma ParseSearchRangeOf(s: seq<byte>, start: Oid, inclusive: bool, n: nat, end: Oid, endInclusive: bool, m: nat)
    requires ParseOid(s) == Success((start, inclusive, n))
    requires n <= |s| && ParseOid(s[n..]) == Success((end, endInclusive, m))
    ensures ParseSearchRange(s) == Success((SearchRange(start, end, inclusive), n + m))
  {
    assert ParseOid(s).Extract() == (start, inclusive, n);
    assert ParseOid(s[n..]).Extract() == (end, endInclusive, m);
  }

  lemma SearchRangeRoundTrip(r: SearchRange, rest: seq<byte>)
    requires SearchRangeBytes(r).Success?
    ensures var enc := SearchRangeBytes(r).value;
      ParseSearchRange(enc + rest) == Success((r, |enc|))
  {
    var a := OidBytes(r.start, r.inclusive).value;
    var b := OidBytes(r.end, false).value;
    var enc := SearchRangeBytes(r).value;
    assert enc == a + b;
    OidRoundTrip(r.start, r.inclusive, b + rest);
    OidRoundTrip(r.end, false, rest);
    ParseSearchRangeConcat(enc, a, b, rest, r.start, r.inclusive, r.end);
    assert SearchRange(r.start, r.end, r.inclusive) == r;
  }

  /** Glues the encodings `a` and `b` of a range's two identifiers. */
  lemma ParseSearchRangeConcat(enc: seq<byte>, a: seq<byte>, b: seq<byte>, rest: seq<byte>,
                               start: Oid, inclusive: bool, end: Oid)
    requires enc == a + b
    requires ParseOid(a + (b + rest)) == Success((start, inclusive, |a|))
    requires ParseOid(b + rest) == Success((end, false, |b|))
    ensures ParseSearchRange(enc + rest) == Success((SearchRange(start, end, inclusive), |enc|))
  {
    SplitAfter(enc, a, b, rest);
    ParseSearchRangeOf(enc + rest, start, inclusive, |a|, end, false, |b|);
  }

  lemma SearchRangeTruncated(r: SearchRange, k: nat)
    requires SearchRangeBytes(r).Success?
    requires k < |SearchRangeBytes(r).value|
    ensures ParseSearchRange(SearchRangeBytes(r).value[..k]) == Failure(Truncated)
  {
    var a := OidBytes(r.start, r.inclusive).value;
    var b := OidBytes(r.end, false).value;
    var s := SearchRangeBytes(r).value[..k];
    if k < |a| {
      assert s == a[..k];
      OidTruncated(r.start, r.inclusive, k);
    } else {
      assert s == a + b[..k - |a|];
      OidRoundTrip(r.start, r.inclusive, b[..k - |a|]);
      assert s[|a|..] == b[..k - |a|];
      OidTruncated(r.end, false, k - |a|);
    }
  }

  /** A binding parse is its identifier parse followed by its value parse. */
  lemma ParseVarBindOf(s: seq<byte>, oid: Oid, inclusive: bool, n: nat, value: Value, m: nat)
    requires ParseOid(s) == Success((oid, inclusive, n))
    requires n <= |s| && ParseValue(s[n..]) == Success((value, m))
    ensures ParseVarBind(s) == Success((VarBind(oid, value), n + m))
  {
    assert ParseOid(s).Extract() == (oid, inclusive, n);
    assert ParseValue(s[n..]).Extract() == (value, m);
  }

  lemma VarBindRoundTrip(vb: VarBind, rest: seq<byte>)
    requires VarBindBytes(vb).Success?
    ensures var enc := VarBindBytes(vb).value;
      ParseVarBind(enc + rest) == Success((vb, |enc|))
  {
    var a := OidBytes(vb.oid, false).value;
    var b := ValueBytes(vb.value).value;
    var enc := VarBindBytes(vb).value;
    assert enc == a + b;
    OidRoundTrip(vb.oid, false, b + rest);
    ValueRoundTrip(vb.value, rest);
    ParseVarBindConcat(enc, a, b, rest, vb.oid, vb.value);
    assert VarBind(vb.oid, vb.value) == vb;
  }

  /** Glues an identifier encoding `a` and a value encoding `b`. */
  lemma ParseVarBindConcat(enc: seq<byte>, a: seq<byte>, b: seq<byte>, rest: seq<byte>, oid: Oid, value: Value)
    requires enc == a + b
    requires ParseOid(a + (b + rest)) == Success((oid, false, |a|))
    requires ParseValue(b + rest) == Success((value, |b|))
    ensures ParseVarBind(enc + rest) == Success((VarBind(oid, value), |enc|))
  {
    SplitAfter(enc, a, b, rest);
    ParseVarBindOf(enc + rest, oid, false, |a|, value, |b|);
  }

  lemma VarBindTruncated(vb: VarBind, k: nat)
    requires VarBindBytes(vb).Success?
    requires k < |VarBindBytes(vb).value|
    ensures ParseVarBind(VarBindBytes(vb).value[..k]) == Failure(Truncated)
  {
    var a := OidBytes(vb.oid, false).value;
    var b := ValueBytes(vb.value).value;
    var s := VarBindBytes(vb).value[..k];
    if k < |a| {
      assert s == a[..k];
      OidTruncated(vb.oid, false, k);
    } else {
      assert s == a + b[..k - |a|];
      OidRoundTrip(vb.oid, false, b[..k - |a|]);
      assert s[|a|..] == b[..k - |a|];
      ValueTruncated(vb.value, k - |a|);
    }
  }
}
