/** Machine integers, their byte layouts, and the error-carrying result that
    every AgentX decoder returns.  Bytes are plain integers in 0..255 so that
    the packing arithmetic stays linear. */
module Wire {

  type byte = x: int | 0 <= x < 0x100
  type u16 = x: int | 0 <= x < 0x1_0000
  type u32 = x: int | 0 <= x < 0x1_0000_0000
  type u64 = x: int | 0 <= x < 0x1_0000_0000_0000_0000
  type i32 = x: int | -0x8000_0000 <= x < 0x8000_0000

  /** The ways an encode or decode call can fail. */
  datatype Error =
    | Truncated                    // the reader ran out before a field was complete
    | OidTooLong                   // more than 255 sub-identifiers after compression
    | StringTooLong                // an octet string whose length does not fit in 32 bits
    | UnknownPduType(typeByte: byte)
    | UnknownValueType(typeCode: u16)

  datatype Result<+T> = Success(value: T) | Failure(error: Error) {
    predicate IsFailure() {
      Failure?
    }

    function PropagateFailure<U>(): Result<U>
      requires Failure?
    {
      Failure(error)
    }

    function Extract(): T
      requires Success?
    {
      value
    }
  }

  /** `n` zero bytes, as written for padding and reserved fields. */
  function Zeros(n: nat): (z: seq<byte>)
    ensures |z| == n && forall i :: 0 <= i < n ==> z[i] == 0
  {
    seq(n, _ => 0)
  }

  lemma ZerosGrow(n: nat)
    ensures Zeros(n) + [0] == Zeros(n + 1)
  {
  }

  /** Splitting `head + tail + rest` back at the end of `head`. */
  lemma SplitAfter<T>(enc: seq<T>, head: seq<T>, tail: seq<T>, rest: seq<T>)
    requires enc == head + tail
    ensures enc + rest == head + (tail + rest)
    ensures (enc + rest)[|head|..] == tail + rest
    ensures (enc + rest)[..|head|] == head
  {
    assert enc + rest == head + (tail + rest);
  }

  // ---- big-endian and little-endian packing ----

  function BE16(x: u16): (r: seq<byte>)
  {
    [x / 0x100, x % 0x100]
  }

  function FromBE16(s: seq<byte>): (x: u16)
    requires |s| >= 2
  {
    (s[0] as int) * 0x100 + s[1]
  }

  /** The four bytes of `x`, most significant first, peeled off by
      repeated division by 256. */
  function BE32(x: u32): (r: seq<byte>)
  {
    var q1 := x / 0x100;
    var q2 := q1 / 0x100;
    [q2 / 0x100, q2 % 0x100, q1 % 0x100, x % 0x100]
  }

  function FromBE32(s: seq<byte>): (x: u32)
    requires |s| >= 4
  {
    (((s[0] as int) * 0x100 + s[1]) * 0x100 + s[2]) * 0x100 + s[3]
  }

  /** The same four bytes, least significant first. */
  function LE32(x: u32): (r: seq<byte>)
  {
    var q1 := x / 0x100;
    var q2 := q1 / 0x100;
    [x % 0x100, q1 % 0x100, q2 % 0x100, q2 / 0x100]
  }

  function FromLE32(s: seq<byte>): (x: u32)
    requires |s| >= 4
  {
    (((s[3] as int) * 0x100 + s[2]) * 0x100 + s[1]) * 0x100 + s[0]
  }

  function BE64(x: u64): (r: seq<byte>)
  {
    BE32(x / 0x1_0000_0000) + BE32(x % 0x1_0000_0000)
  }

  function FromBE64(s: seq<byte>): (x: u64)
    requires |s| >= 8
  {
    FromBE32(s) * 0x1_0000_0000 + FromBE32(s[4..])
  }

  /** Two's-complement reinterpretation of a signed 32-bit value, as
      `i32::to_be_bytes` lays it out. */
  function I32Bits(v: i32): (u: u32)
    ensures (u < 0x8000_0000) == (v >= 0)
  {
    if v < 0 then v + 0x1_0000_0000 else v
  }

  function I32FromBits(u: u32): (v: i32)
    ensures I32Bits(v) == u
  {
    if u >= 0x8000_0000 then u - 0x1_0000_0000 else u
  }

  lemma I32BitsInverse(v: i32)
    ensures I32FromBits(I32Bits(v)) == v
  {
  }

  // ---- packing is a bijection between integers and byte windows ----

  lemma BE16RoundTrip(x: u16, rest: seq<byte>)
    ensures |BE16(x)| == 2
    ensures FromBE16(BE16(x) + rest) == x
  {
  }

  lemma BE16OfBytes(s: seq<byte>)
    requires |s| >= 2
    ensures BE16(FromBE16(s)) == s[..2]
  {
  }

  lemma BE32RoundTrip(x: u32, rest: seq<byte>)
    ensures |BE32(x)| == 4
    ensures FromBE32(BE32(x) + rest) == x
  {
    var q1 := x / 0x100;
    var q2 := q1 / 0x100;
    assert q2 / 0x100 * 0x100 + q2 % 0x100 == q2;
    assert q2 * 0x100 + q1 % 0x100 == q1;
    assert q1 * 0x100 + x % 0x100 == x;
  }

  lemma BE32OfBytes(s: seq<byte>)
    requires |s| >= 4
    ensures BE32(FromBE32(s)) == s[..4]
  {
    var hi := (s[0] as int) * 0x100 + s[1];
    var mid := hi * 0x100 + s[2];
    var x := mid * 0x100 + s[3];
    assert x / 0x100 == mid && x % 0x100 == s[3];
    assert mid / 0x100 == hi && mid % 0x100 == s[2];
    assert hi / 0x100 == s[0] && hi % 0x100 == s[1];
  }

  lemma LE32RoundTrip(x: u32, rest: seq<byte>)
    ensures |LE32(x)| == 4
    ensures FromLE32(LE32(x) + rest) == x
  {
    var q1 := x / 0x100;
    var q2 := q1 / 0x100;
    assert q2 / 0x100 * 0x100 + q2 % 0x100 == q2;
    assert q2 * 0x100 + q1 % 0x100 == q1;
    assert q1 * 0x100 + x % 0x100 == x;
  }

  lemma LE32OfBytes(s: seq<byte>)
    requires |s| >= 4
    ensures LE32(FromLE32(s)) == s[..4]
  {
    var hi := (s[3] as int) * 0x100 + s[2];
    var mid := hi * 0x100 + s[1];
    var x := mid * 0x100 + s[0];
    assert x / 0x100 == mid && x % 0x100 == s[0];
    assert mid / 0x100 == hi && mid % 0x100 == s[1];
    assert hi / 0x100 == s[3] && hi % 0x100 == s[2];
  }

  lemma BE64RoundTrip(x: u64, rest: seq<byte>)
    ensures |BE64(x)| == 8
    ensures FromBE64(BE64(x) + rest) == x
  {
    var hi, lo := x / 0x1_0000_0000, x % 0x1_0000_0000;
    var s := BE64(x) + rest;
    assert s == BE32(hi) + (BE32(lo) + rest);
    BE32RoundTrip(hi, BE32(lo) + rest);
    assert s[4..] == BE32(lo) + rest;
    BE32RoundTrip(lo, rest);
  }

  lemma BE64OfBytes(s: seq<byte>)
    requires |s| >= 8
    ensures BE64(FromBE64(s)) == s[..8]
  {
    var hi: int, lo: int := FromBE32(s), FromBE32(s[4..]);
    var x: int := hi * 0x1_0000_0000 + lo;
    assert x / 0x1_0000_0000 == hi && x % 0x1_0000_0000 == lo;
    BE32OfBytes(s);
    BE32OfBytes(s[4..]);
    assert s[..8] == s[..4] + s[4..][..4];
  }
}
