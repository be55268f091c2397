/** The PDU bodies of RFC 2741 section 6.2 that this codec handles: Open,
    Close, Register, Unregister, Get/GetNext, GetBulk, TestSet, the four
    empty bodies (CommitSet, UndoSet, CleanupSet, Ping), Notify and
    Response.  Each body has an encoder into bytes and a decoder that reads
    from the front of `s` and answers the body and the bytes it consumed. */
module Bodies {
  import opened Wire
  import opened Pdu
  import opened Lists

  datatype Option<T> = None | Some(value: T)

  /** `usize::saturating_sub`. */
  function SaturatingSub(a: nat, b: nat): nat {
    if a >= b then a - b else 0
  }

  // =====================================================================
  // Open (section 6.2.1)
  // =====================================================================

  datatype OpenPdu = OpenPdu(timeout: byte, id: Oid, description: seq<byte>)

  /** What a subagent says about itself when it opens a session: its
      identifier (never inclusive) and its description. */
  function IdentityBytes(id: Oid, description: seq<byte>): (r: Result<seq<byte>>)
    ensures r.Success? <==> OidBytes(id, false).Success? && OctetStringBytes(description).Success?
    ensures r.Success? ==> |r.value| >= 8
  {
    var oid :- OidBytes(id, false);
    var text :- OctetStringBytes(description);
    Success(oid + text)
  }

  /** Reads the identifier, dropping its inclusive flag, then the description. */
  function ParseIdentity(s: seq<byte>): (r: Result<(Oid, seq<byte>, nat)>)
    ensures r.Success? ==> 8 <= r.value.2 <= |s|
  {
    var oid :- ParseOid(s);
    var text :- ParseOctetString(s[oid.2..]);
    Success((oid.0, text.0, oid.2 + text.1))
  }

  lemma IdentityRoundTrip(id: Oid, description: seq<byte>, rest: seq<byte>)
    requires IdentityBytes(id, description).Success?
    ensures var enc := IdentityBytes(id, description).value;
      ParseIdentity(enc + rest) == Success((id, description, |enc|))
  {
    var oid := OidBytes(id, false).value;
    var text := OctetStringBytes(description).value;
    var s := IdentityBytes(id, description).value + rest;
    assert s == oid + (text + rest);
    OidRoundTrip(id, false, text + rest);
    assert ParseOid(s).Extract() == (id, false, |oid|);
    assert s[|oid|..] == text + rest;
    OctetStringRoundTrip(description, rest);
    assert ParseOctetString(s[|oid|..]).Extract() == (description, |text|);
  }

  /** A strict prefix of an identity is refused as truncated. */
  lemma IdentityTruncated(id: Oid, description: seq<byte>, k: nat)
    requires IdentityBytes(id, description).Success?
    requires k < |IdentityBytes(id, description).value|
    ensures ParseIdentity(IdentityBytes(id, description).value[..k]) == Failure(Truncated)
  {
    var oid := OidBytes(id, false).value;
    var text := OctetStringBytes(description).value;
    var s := IdentityBytes(id, description).value[..k];
    if k < |oid| {
      assert s == oid[..k];
      OidTruncated(id, false, k);
    } else {
      var cut := text[..k - |oid|];
      assert s == oid + cut;
      OidRoundTrip(id, false, cut);
      assert ParseOid(s).Extract() == (id, false, |oid|);
      assert s[|oid|..] == cut;
      OctetStringTruncated(description, k - |oid|);
    }
  }

  /** The timeout, three reserved zero bytes, then the identity. */
  function OpenBytes(p: OpenPdu): (r: Result<seq<byte>>)
    ensures r.Success? <==> OidBytes(p.id, false).Success? && OctetStringBytes(p.description).Success?
    ensures r.Success? ==> |r.value| >= 12 && r.value[..4] == [p.timeout, 0, 0, 0]
  {
    var identity :- IdentityBytes(p.id, p.description);
    Success([p.timeout, 0, 0, 0] + identity)
  }

  /** Reads the timeout, skips the reserved bytes unchecked, then reads the
      identity. */
  function ParseOpen(s: seq<byte>): (r: Result<(OpenPdu, nat)>)
    ensures r.Success? ==> 12 <= r.value.1 <= |s| && r.value.0.timeout == s[0]
  {
    if |s| < 4 then Failure(Truncated)
    else
      var identity :- ParseIdentity(s[4..]);
      Success((OpenPdu(s[0], identity.0, identity.1), 4 + identity.2))
  }

  lemma OpenRoundTrip(p: OpenPdu, rest: seq<byte>)
    requires OpenBytes(p).Success?
    ensures var enc := OpenBytes(p).value;
      ParseOpen(enc + rest) == Success((p, |enc|))
  {
    var identity := IdentityBytes(p.id, p.description).value;
    var enc := OpenBytes(p).value;
    assert enc == [p.timeout, 0, 0, 0] + identity;
    IdentityRoundTrip(p.id, p.description, rest);
    ParseOpenConcat(enc, p.timeout, identity, rest, p.id, p.description);
    assert OpenPdu(p.timeout, p.id, p.description) == p;
  }

  /** Glues the timeout word onto an encoded identity. */
  lemma ParseOpenConcat(enc: seq<byte>, timeout: byte, identity: seq<byte>, rest: seq<byte>,
                        id: Oid, description: seq<byte>)
    requires enc == [timeout, 0, 0, 0] + identity
    requires ParseIdentity(identity + rest) == Success((id, description, |identity|))
    ensures ParseOpen(enc + rest) == Success((OpenPdu(timeout, id, description), |enc|))
  {
    SplitAfter(enc, [timeout, 0, 0, 0], identity, rest);
    var s := enc + rest;
    assert s[0] == timeout;
    assert ParseIdentity(s[4..]).Extract() == (id, description, |identity|);
  }

  /** A strict prefix of an Open body is refused as truncated. */
  lemma OpenTruncated(p: OpenPdu, k: nat)
    requires OpenBytes(p).Success?
    requires k < |OpenBytes(p).value|
    ensures ParseOpen(OpenBytes(p).value[..k]) == Failure(Truncated)
  {
    var identity := IdentityBytes(p.id, p.description).value;
    var enc := OpenBytes(p).value;
    assert enc == [p.timeout, 0, 0, 0] + identity;
    if k >= 4 {
      assert enc[..k][4..] == identity[..k - 4];
      IdentityTruncated(p.id, p.description, k - 4);
    }
  }

  /** The three reserved bytes are not looked at by the decoder. */
  lemma OpenIgnoresReserved(s: seq<byte>, t: seq<byte>)
    requires |s| >= 4 && |t| == |s| && t[0] == s[0] && t[4..] == s[4..]
    ensures ParseOpen(t) == ParseOpen(s)
  {
  }

  /** An Open with timeout 30, identifier 1.3.6.1.4.1.12345 and description
      "test agent" comes back with the same timeout and description. */
  lemma OpenExample()
    ensures var p := OpenPdu(30, [1, 3, 6, 1, 4, 1, 12345],
                             [116, 101, 115, 116, 32, 97, 103, 101, 110, 116]);
      && OpenBytes(p).Success?
      && ParseOpen(OpenBytes(p).value).Success?
      && ParseOpen(OpenBytes(p).value).value.0.timeout == 30
      && ParseOpen(OpenBytes(p).value).value.0.description == p.description
  {
    var p := OpenPdu(30, [1, 3, 6, 1, 4, 1, 12345], [116, 101, 115, 116, 32, 97, 103, 101, 110, 116]);
    assert OidTail(p.id) == [1, 12345];
    OpenRoundTrip(p, []);
    assert OpenBytes(p).value + [] == OpenBytes(p).value;
  }

  // =====================================================================
  // Close (section 6.2.2)
  // =====================================================================

  datatype CloseReason = Other | ParseError | ProtocolError | Timeouts | Shutdown | ByManager

  /** The reason codes of section 6.2.2. */
  function CloseReasonCode(reason: CloseReason): (b: byte)
    ensures 1 <= b <= 6
  {
    match reason
    case Other => 1
    case ParseError => 2
    case ProtocolError => 3
    case Timeouts => 4
    case Shutdown => 5
    case ByManager => 6
  }

  /** The decoder's reading of a reason byte: the six codes map to their
      reasons, and every other byte is taken as Other. */
  function CloseReasonFromByte(b: byte): (reason: CloseReason)
    ensures 1 <= b <= 6 ==> CloseReasonCode(reason) == b
    ensures !(1 <= b <= 6) ==> reason == Other
  {
    match b
    case 1 => Other
    case 2 => CloseReason.ParseError
    case 3 => ProtocolError
    case 4 => Timeouts
    case 5 => Shutdown
    case 6 => ByManager
    case _ => Other
  }

  lemma CloseReasonRoundTrip(reason: CloseReason)
    ensures CloseReasonFromByte(CloseReasonCode(reason)) == reason
  {
  }

  datatype ClosePdu = ClosePdu(reason: CloseReason)

  /** The reason code and three reserved zero bytes. */
  function CloseBytes(p: ClosePdu): (r: seq<byte>)
    ensures |r| == 4 && r[0] == CloseReasonCode(p.reason) && r[1..] == Zeros(3)
    ensures CloseReasonFromByte(r[0]) == p.reason
  {
    [CloseReasonCode(p.reason), 0, 0, 0]
  }

  function ParseClose(s: seq<byte>): (r: Result<(ClosePdu, nat)>)
    ensures r.Success? <==> |s| >= 4
    ensures r.Failure? ==> r.error == Truncated
  {
    if |s| < 4 then Failure(Truncated)
    else Success((ClosePdu(CloseReasonFromByte(s[0])), 4))
  }

  lemma CloseRoundTrip(p: ClosePdu, rest: seq<byte>)
    ensures ParseClose(CloseBytes(p) + rest) == Success((p, 4))
  {
    CloseReasonRoundTrip(p.reason);
    assert (CloseBytes(p) + rest)[0] == CloseReasonCode(p.reason);
  }

  /** The decoder never refuses four bytes: an unknown reason is Other. */
  lemma CloseLenient(s: seq<byte>)
    requires |s| >= 4 && !(1 <= s[0] <= 6)
    ensures ParseClose(s) == Success((ClosePdu(Other), 4))
  {
  }

  // =====================================================================
  // Register (section 6.2.3) and Unregister (section 6.2.4)
  // =====================================================================

  /** After their four header bytes, Register and Unregister carry the same
      tail: the subtree (never inclusive) and, if there is one, the upper
      bound as a big-endian word. */
  function RegistrationTailBytes(subtree: Oid, upperBound: Option<u32>): (r: Result<seq<byte>>)
    ensures r.Success? <==> OidBytes(subtree, false).Success?
    ensures r.Success? ==> |r.value| >= 4
  {
    var oid :- OidBytes(subtree, false);
    Success(oid + UpperBoundBytes(upperBound))
  }

  /** Whether an upper bound follows is not on the wire in the body; the
      caller says so. */
  function ParseRegistrationTail(s: seq<byte>, hasUpperBound: bool): (r: Result<(Oid, Option<u32>, nat)>)
    ensures r.Success? ==> 4 <= r.value.2 <= |s| && r.value.1.Some? == hasUpperBound
  {
    var subtree :- ParseOid(s);
    var upperBound :- ParseUpperBound(s[subtree.2..], hasUpperBound);
    Success((subtree.0, upperBound.0, subtree.2 + upperBound.1))
  }

  /** The optional upper bound: a big-endian word when present, else nothing. */
  function UpperBoundBytes(upperBound: Option<u32>): (r: seq<byte>)
    ensures |r| == if upperBound.Some? then 4 else 0
  {
    if upperBound.Some? then BE32(upperBound.value) else []
  }

  function ParseUpperBound(s: seq<byte>, hasUpperBound: bool): (r: Result<(Option<u32>, nat)>)
    ensures r.Success? ==> r.value.1 <= |s| && r.value.0.Some? == hasUpperBound
  {
    if !hasUpperBound then Success((None, 0))
    else if |s| < 4 then Failure(Truncated)
    else Success((Some(FromBE32(s)), 4))
  }

  lemma UpperBoundRoundTrip(upperBound: Option<u32>, rest: seq<byte>)
    ensures ParseUpperBound(UpperBoundBytes(upperBound) + rest, upperBound.Some?)
         == Success((upperBound, |UpperBoundBytes(upperBound)|))
  {
    if upperBound.Some? {
      BE32RoundTrip(upperBound.value, rest);
    }
  }

  /** The tail decodes back to its subtree and upper bound when the caller
      says whether a bound is present. */
  lemma RegistrationTailRoundTrip(subtree: Oid, upperBound: Option<u32>, rest: seq<byte>)
    requires RegistrationTailBytes(subtree, upperBound).Success?
    ensures var enc := RegistrationTailBytes(subtree, upperBound).value;
      ParseRegistrationTail(enc + rest, upperBound.Some?) == Success((subtree, upperBound, |enc|))
  {
    var oid := OidBytes(subtree, false).value;
    var bound := UpperBoundBytes(upperBound);
    var s := RegistrationTailBytes(subtree, upperBound).value + rest;
    assert s == oid + (bound + rest);
    OidRoundTrip(subtree, false, bound + rest);
    assert ParseOid(s).Extract() == (subtree, false, |oid|);
    assert s[|oid|..] == bound + rest;
    UpperBoundRoundTrip(upperBound, rest);
    assert ParseUpperBound(s[|oid|..], upperBound.Some?).Extract() == (upperBound, |bound|);
  }

  /** A strict prefix of a registration tail is refused as truncated when
      the caller expects the bound the tail carries. */
  lemma RegistrationTailTruncated(subtree: Oid, upperBound: Option<u32>, k: nat)
    requires RegistrationTailBytes(subtree, upperBound).Success?
    requires k < |RegistrationTailBytes(subtree, upperBound).value|
    ensures ParseRegistrationTail(RegistrationTailBytes(subtree, upperBound).value[..k], upperBound.Some?)
         == Failure(Truncated)
  {
    var oid := OidBytes(subtree, false).value;
    var bound := UpperBoundBytes(upperBound);
    var s := RegistrationTailBytes(subtree, upperBound).value[..k];
    if k < |oid| {
      assert s == oid[..k];
      OidTruncated(subtree, false, k);
    } else {
      var cut := bound[..k - |oid|];
      assert s == oid + cut;
      OidRoundTrip(subtree, false, cut);
      assert ParseOid(s).Extract() == (subtree, false, |oid|);
      assert s[|oid|..] == cut;
    }
  }

  datatype RegisterPdu = RegisterPdu(timeout: byte, priority: byte, rangeSubid: byte,
                                     subtree: Oid, upperBound: Option<u32>)

  /** `RegisterPdu::new`: no range. */
  function NewRegister(subtree: Oid, priority: byte, timeout: byte): (p: RegisterPdu)
    ensures p.subtree == subtree && p.priority == priority && p.timeout == timeout
    ensures p.rangeSubid == 0 && p.upperBound == None
  {
    RegisterPdu(timeout, priority, 0, subtree, None)
  }

  /** `RegisterPdu::with_range`: sets the range sub-identifier and the upper
      bound and keeps every other field. */
  function RegisterWithRange(p: RegisterPdu, rangeSubid: byte, upperBound: u32): (q: RegisterPdu)
    ensures q.rangeSubid == rangeSubid && q.upperBound == Some(upperBound)
    ensures q.timeout == p.timeout && q.priority == p.priority && q.subtree == p.subtree
  {
    p.(rangeSubid := rangeSubid, upperBound := Some(upperBound))
  }

  /** Timeout, priority, range sub-identifier, a reserved zero, then the
      registration tail. */
  function RegisterBytes(p: RegisterPdu): (r: Result<seq<byte>>)
    ensures r.Success? <==> OidBytes(p.subtree, false).Success?
    ensures r.Success? ==> |r.value| >= 8 && r.value[..4] == [p.timeout, p.priority, p.rangeSubid, 0]
  {
    var tail :- RegistrationTailBytes(p.subtree, p.upperBound);
    Success([p.timeout, p.priority, p.rangeSubid, 0] + tail)
  }

  function ParseRegister(s: seq<byte>, hasUpperBound: bool): (r: Result<(RegisterPdu, nat)>)
    ensures r.Success? ==> 8 <= r.value.1 <= |s|
    ensures r.Success? ==> r.value.0.upperBound.Some? == hasUpperBound
  {
    if |s| < 4 then Failure(Truncated)
    else
      var tail :- ParseRegistrationTail(s[4..], hasUpperBound);
      Success((RegisterPdu(s[0], s[1], s[2], tail.0, tail.1), 4 + tail.2))
  }

  lemma RegisterRoundTrip(p: RegisterPdu, rest: seq<byte>)
    requires RegisterBytes(p).Success?
    ensures var enc := RegisterBytes(p).value;
      ParseRegister(enc + rest, p.upperBound.Some?) == Success((p, |enc|))
  {
    var tail := RegistrationTailBytes(p.subtree, p.upperBound).value;
    var enc := RegisterBytes(p).value;
    assert enc == [p.timeout, p.priority, p.rangeSubid, 0] + tail;
    RegistrationTailRoundTrip(p.subtree, p.upperBound, rest);
    ParseRegisterConcat(enc, [p.timeout, p.priority, p.rangeSubid, 0], tail, rest,
                        p.upperBound.Some?, p.subtree, p.upperBound);
    assert RegisterPdu(p.timeout, p.priority, p.rangeSubid, p.subtree, p.upperBound) == p;
  }

  /** A strict prefix of a Register body is refused as truncated. */
  lemma RegisterTruncated(p: RegisterPdu, k: nat)
    requires RegisterBytes(p).Success?
    requires k < |RegisterBytes(p).value|
    ensures ParseRegister(RegisterBytes(p).value[..k], p.upperBound.Some?) == Failure(Truncated)
  {
    var tail := RegistrationTailBytes(p.subtree, p.upperBound).value;
    var enc := RegisterBytes(p).value;
    assert enc == [p.timeout, p.priority, p.rangeSubid, 0] + tail;
    if k >= 4 {
      assert enc[..k][4..] == tail[..k - 4];
      RegistrationTailTruncated(p.subtree, p.upperBound, k - 4);
    }
  }

  /** Glues a 4-byte header onto an encoded registration tail. */
  lemma ParseRegisterConcat(enc: seq<byte>, head: seq<byte>, tail: seq<byte>, rest: seq<byte>,
                            hasUpperBound: bool, subtree: Oid, upperBound: Option<u32>)
    requires |head| == 4 && enc == head + tail
    requires ParseRegistrationTail(tail + rest, hasUpperBound) == Success((subtree, upperBound, |tail|))
    ensures ParseRegister(enc + rest, hasUpperBound)
      == Success((RegisterPdu(head[0], head[1], head[2], subtree, upperBound), |enc|))
  {
    SplitAfter(enc, head, tail, rest);
    var s := enc + rest;
    assert s[0] == head[0] && s[1] == head[1] && s[2] == head[2];
    assert ParseRegistrationTail(s[4..], hasUpperBound).Extract() == (subtree, upperBound, |tail|);
  }

  /** A Register for 1.3.6.1.4.1.12345 with priority 127 and timeout 30,
      without a range, comes back with the same timeout and priority. */
  lemma RegisterExample()
    ensures var p := NewRegister([1, 3, 6, 1, 4, 1, 12345], 127, 30);
      && RegisterBytes(p).Success?
      && ParseRegister(RegisterBytes(p).value, false) == Success((p, 16))
  {
    var p := NewRegister([1, 3, 6, 1, 4, 1, 12345], 127, 30);
    assert OidTail(p.subtree) == [1, 12345];
    RegisterRoundTrip(p, []);
    assert RegisterBytes(p).value + [] == RegisterBytes(p).value;
  }

  /** Unregister has no timeout: its first byte is reserved. */
  datatype UnregisterPdu = UnregisterPdu(priority: byte, rangeSubid: byte, subtree: Oid, upperBound: Option<u32>)

  /** `UnregisterPdu::new`: no range. */
  function NewUnregister(subtree: Oid, priority: byte): (p: UnregisterPdu)
    ensures p.subtree == subtree && p.priority == priority
    ensures p.rangeSubid == 0 && p.upperBound == None
  {
    UnregisterPdu(priority, 0, subtree, None)
  }

  /** `UnregisterPdu::with_range`. */
  function UnregisterWithRange(p: UnregisterPdu, rangeSubid: byte, upperBound: u32): (q: UnregisterPdu)
    ensures q.rangeSubid == rangeSubid && q.upperBound == Some(upperBound)
    ensures q.priority == p.priority && q.subtree == p.subtree
  {
    p.(rangeSubid := rangeSubid, upperBound := Some(upperBound))
  }

  function UnregisterBytes(p: UnregisterPdu): (r: Result<seq<byte>>)
    ensures r.Success? <==> OidBytes(p.subtree, false).Success?
    ensures r.Success? ==> |r.value| >= 8 && r.value[..4] == [0, p.priority, p.rangeSubid, 0]
  {
    var tail :- RegistrationTailBytes(p.subtree, p.upperBound);
    Success([0, p.priority, p.rangeSubid, 0] + tail)
  }

  /** The first byte is skipped without being checked. */
  function ParseUnregister(s: seq<byte>, hasUpperBound: bool): (r: Result<(UnregisterPdu, nat)>)
    ensures r.Success? ==> 8 <= r.value.1 <= |s|
    ensures r.Success? ==> r.value.0.upperBound.Some? == hasUpperBound
  {
    if |s| < 4 then Failure(Truncated)
    else
      var tail :- ParseRegistrationTail(s[4..], hasUpperBound);
      Success((UnregisterPdu(s[1], s[2], tail.0, tail.1), 4 + tail.2))
  }

  lemma UnregisterRoundTrip(p: UnregisterPdu, rest: seq<byte>)
    requires UnregisterBytes(p).Success?
    ensures var enc := UnregisterBytes(p).value;
      ParseUnregister(enc + rest, p.upperBound.Some?) == Success((p, |enc|))
  {
    var tail := RegistrationTailBytes(p.subtree, p.upperBound).value;
    var enc := UnregisterBytes(p).value;
    assert enc == [0, p.priority, p.rangeSubid, 0] + tail;
    RegistrationTailRoundTrip(p.subtree, p.upperBound, rest);
    ParseUnregisterConcat(enc, [0, p.priority, p.rangeSubid, 0], tail, rest,
                          p.upperBound.Some?, p.subtree, p.upperBound);
    assert UnregisterPdu(p.priority, p.rangeSubid, p.subtree, p.upperBound) == p;
  }

  /** A strict prefix of an Unregister body is refused as truncated. */
  lemma UnregisterTruncated(p: UnregisterPdu, k: nat)
    requires UnregisterBytes(p).Success?
    requires k < |UnregisterBytes(p).value|
    ensures ParseUnregister(UnregisterBytes(p).value[..k], p.upperBound.Some?) == Failure(Truncated)
  {
    var tail := RegistrationTailBytes(p.subtree, p.upperBound).value;
    var enc := UnregisterBytes(p).value;
    assert enc == [0, p.priority, p.rangeSubid, 0] + tail;
    if k >= 4 {
      assert enc[..k][4..] == tail[..k - 4];
      RegistrationTailTruncated(p.subtree, p.upperBound, k - 4);
    }
  }

  /** Glues a 4-byte header onto an encoded registration tail. */
  lemma ParseUnregisterConcat(enc: seq<byte>, head: seq<byte>, tail: seq<byte>, rest: seq<byte>,
                              hasUpperBound: bool, subtree: Oid, upperBound: Option<u32>)
    requires |head| == 4 && enc == head + tail
    requires ParseRegistrationTail(tail + rest, hasUpperBound) == Success((subtree, upperBound, |tail|))
    ensures ParseUnregister(enc + rest, hasUpperBound)
      == Success((UnregisterPdu(head[1], head[2], subtree, upperBound), |enc|))
  {
    SplitAfter(enc, head, tail, rest);
    var s := enc + rest;
    assert s[0] == head[0] && s[1] == head[1] && s[2] == head[2];
    assert ParseRegistrationTail(s[4..], hasUpperBound).Extract() == (subtree, upperBound, |tail|);
  }

  /** An Unregister for 1.3.6.1.4.1.12345 with priority 127 comes back with
      the same priority. */
  lemma UnregisterExample()
    ensures var p := NewUnregister([1, 3, 6, 1, 4, 1, 12345], 127);
      && UnregisterBytes(p).Success?
      && ParseUnregister(UnregisterBytes(p).value, false) == Success((p, 16))
  {
    var p := NewUnregister([1, 3, 6, 1, 4, 1, 12345], 127);
    assert OidTail(p.subtree) == [1, 12345];
    UnregisterRoundTrip(p, []);
    assert UnregisterBytes(p).value + [] == UnregisterBytes(p).value;
  }

  // =====================================================================
  // Get and GetNext (sections 6.2.5 and 6.2.6)
  // =====================================================================

  datatype GetPdu = GetPdu(ranges: seq<SearchRange>)

  /** `GetPdu::single`: one non-inclusive range from `oid` to its child 0. */
  function SingleGet(oid: Oid): (p: GetPdu)
    ensures |p.ranges| == 1
    ensures p.ranges[0].start == oid && p.ranges[0].end == oid + [0] && !p.ranges[0].inclusive
  {
    GetPdu([SearchRange(oid, oid + [0], false)])
  }

  /** The ranges one after another, with no count in front. */
  function GetBytes(p: GetPdu): (r: Result<seq<byte>>)
    ensures r.Success? <==> forall i :: 0 <= i < |p.ranges| ==> SearchRangeBytes(p.ranges[i]).Success?
    ensures r.Success? ==> |r.value| >= 8 * |p.ranges|
  {
    RangeListBytes(p.ranges)
  }

  /** Reads ranges until exactly the payload length has been read. */
  function ParseGet(s: seq<byte>, payloadLen: nat): (r: Result<(GetPdu, nat)>)
    ensures r.Success? ==> r.value.1 == payloadLen <= |s|
  {
    var ranges :- ParseRanges(s, payloadLen);
    Success((GetPdu(ranges.0), ranges.1))
  }

  /** `GetPdu::decode`.  Its no-progress exit cannot be taken: every range
      takes at least eight bytes. */
  method DecodeGet(s: seq<byte>, payloadLen: nat) returns (r: Result<(GetPdu, nat)>)
    ensures r == ParseGet(s, payloadLen)
  {
    var ranges := DecodeRanges(s, payloadLen);
    if ranges.Failure? {
      return Failure(ranges.error);
    }
    return Success((GetPdu(ranges.value.0), ranges.value.1));
  }

  lemma GetRoundTrip(p: GetPdu, rest: seq<byte>)
    requires GetBytes(p).Success?
    ensures var enc := GetBytes(p).value;
      ParseGet(enc + rest, |enc|) == Success((p, |enc|))
  {
    RangeListRoundTrip(p.ranges, rest);
  }

  /** A Get body cut short, or declared one byte shorter than it is, is
      refused as truncated. */
  lemma GetTruncated(p: GetPdu, k: nat)
    requires GetBytes(p).Success?
    requires k < |GetBytes(p).value|
    ensures var enc := GetBytes(p).value;
      && ParseGet(enc[..k], |enc|) == Failure(Truncated)
      && (|p.ranges| > 0 ==> |enc| >= 1 && ParseGet(enc, |enc| - 1) == Failure(Truncated))
  {
    RangeListTruncated(p.ranges, k);
    if |p.ranges| > 0 {
      RangeListOneShort(p.ranges, []);
      assert GetBytes(p).value + [] == GetBytes(p).value;
    }
  }

  /** A Get for one identifier encodes whenever the identifier and its
      child 0 do, and decodes back to the same single range. */
  lemma SingleGetRoundTrip(oid: Oid, rest: seq<byte>)
    requires OidBytes(oid + [0], false).Success?
    ensures GetBytes(SingleGet(oid)).Success?
    ensures var enc := GetBytes(SingleGet(oid)).value;
      ParseGet(enc + rest, |enc|) == Success((SingleGet(oid), |enc|))
  {
    var p := SingleGet(oid);
    var range := p.ranges[0];
    assert |OidTail(oid)| <= |OidTail(oid + [0])|;
    assert SearchRangeBytes(range).Success?;
    assert p.ranges[1..] == [];
    assert RangeListBytes([]) == Success([]);
    GetRoundTrip(p, rest);
  }

  // =====================================================================
  // GetBulk (section 6.2.7)
  // =====================================================================

  datatype GetBulkPdu = GetBulkPdu(nonRepeaters: u16, maxRepetitions: u16, ranges: seq<SearchRange>)

  /** The two 16-bit counts, big-endian, then the ranges. */
  function GetBulkBytes(p: GetBulkPdu): (r: Result<seq<byte>>)
    ensures r.Success? <==> RangeListBytes(p.ranges).Success?
    ensures r.Success? ==> |r.value| >= 4
  {
    var ranges :- RangeListBytes(p.ranges);
    Success(BE16(p.nonRepeaters) + BE16(p.maxRepetitions) + ranges)
  }

  /** Reads the two counts, then ranges until the payload length less the
      four count bytes has been read. */
  function ParseGetBulk(s: seq<byte>, payloadLen: nat): (r: Result<(GetBulkPdu, nat)>)
    ensures r.Success? ==> 4 <= r.value.1 <= |s|
    ensures r.Success? && payloadLen >= 4 ==> r.value.1 == payloadLen
    ensures r.Success? && payloadLen < 4 ==> r.value.1 == 4 && r.value.0.ranges == []
  {
    if |s| < 4 then Failure(Truncated)
    else
      var ranges :- ParseRanges(s[4..], SaturatingSub(payloadLen, 4));
      Success((GetBulkPdu(FromBE16(s), FromBE16(s[2..]), ranges.0), 4 + ranges.1))
  }

  /** `GetBulkPdu::decode`. */
  method DecodeGetBulk(s: seq<byte>, payloadLen: nat) returns (r: Result<(GetBulkPdu, nat)>)
    ensures r == ParseGetBulk(s, payloadLen)
  {
    if |s| < 4 {
      return Failure(Truncated);
    }
    var nonRepeaters := FromBE16(s);
    var maxRepetitions := FromBE16(s[2..]);
    var ranges := DecodeRanges(s[4..], SaturatingSub(payloadLen, 4));
    ParseGetBulkOf(s, payloadLen, ranges);
    if ranges.Failure? {
      return Failure(ranges.error);
    }
    return Success((GetBulkPdu(nonRepeaters, maxRepetitions, ranges.value.0), 4 + ranges.value.1));
  }

  /** A GetBulk parse is its range-list parse with the two counts in front. */
  lemma ParseGetBulkOf(s: seq<byte>, payloadLen: nat, ranges: Result<(seq<SearchRange>, nat)>)
    requires |s| >= 4 && ranges == ParseRanges(s[4..], SaturatingSub(payloadLen, 4))
    ensures ranges.Failure? ==> ParseGetBulk(s, payloadLen) == Failure(ranges.error)
    ensures ranges.Success? ==>
      ParseGetBulk(s, payloadLen)
      == Success((GetBulkPdu(FromBE16(s), FromBE16(s[2..]), ranges.value.0), 4 + ranges.value.1))
  {
    if ranges.Success? {
      assert ranges.Extract() == ranges.value;
    }
  }

  lemma GetBulkRoundTrip(p: GetBulkPdu, rest: seq<byte>)
    requires GetBulkBytes(p).Success?
    ensures var enc := GetBulkBytes(p).value;
      ParseGetBulk(enc + rest, |enc|) == Success((p, |enc|))
  {
    var ranges := RangeListBytes(p.ranges).value;
    var enc := GetBulkBytes(p).value;
    var s := enc + rest;
    assert s == BE16(p.nonRepeaters) + (BE16(p.maxRepetitions) + (ranges + rest));
    BE16RoundTrip(p.nonRepeaters, BE16(p.maxRepetitions) + (ranges + rest));
    assert s[2..] == BE16(p.maxRepetitions) + (ranges + rest);
    BE16RoundTrip(p.maxRepetitions, ranges + rest);
    assert s[4..] == ranges + rest;
    RangeListRoundTrip(p.ranges, rest);
    assert SaturatingSub(|enc|, 4) == |ranges|;
  }

  /** A GetBulk body cut short, or declared one byte shorter than it is, is
      refused as truncated. */
  lemma GetBulkTruncated(p: GetBulkPdu, k: nat)
    requires GetBulkBytes(p).Success?
    requires k < |GetBulkBytes(p).value|
    ensures var enc := GetBulkBytes(p).value;
      && ParseGetBulk(enc[..k], |enc|) == Failure(Truncated)
      && (|p.ranges| > 0 ==> |enc| >= 1 && ParseGetBulk(enc, |enc| - 1) == Failure(Truncated))
  {
    var ranges := RangeListBytes(p.ranges).value;
    var enc := GetBulkBytes(p).value;
    var head := BE16(p.nonRepeaters) + BE16(p.maxRepetitions);
    assert enc == head + ranges && |head| == 4;
    assert ParseGetBulk(enc[..k], |enc|) == Failure(Truncated) by {
      assert SaturatingSub(|enc|, 4) == |ranges|;
      if k >= 4 {
        assert enc[..k] == head + ranges[..k - 4];
        assert enc[..k][4..] == ranges[..k - 4];
        RangeListTruncated(p.ranges, k - 4);
      }
    }
    if |p.ranges| > 0 {
      RangeListOneShort(p.ranges, []);
      assert enc[4..] == ranges + [];
      assert SaturatingSub(|enc| - 1, 4) == |ranges| - 1;
    }
  }

  /** A GetBulk with non-repeaters 0, max-repetitions 10 and the one range
      1.3.6.1.2.1 .. 1.3.6.1.2.2 comes back whole. */
  lemma GetBulkExample()
    ensures var p := GetBulkPdu(0, 10, [SearchRange([1, 3, 6, 1, 2, 1], [1, 3, 6, 1, 2, 2], false)]);
      && GetBulkBytes(p).Success?
      && ParseGetBulk(GetBulkBytes(p).value, |GetBulkBytes(p).value|) == Success((p, 20))
  {
    var range := SearchRange([1, 3, 6, 1, 2, 1], [1, 3, 6, 1, 2, 2], false);
    var p := GetBulkPdu(0, 10, [range]);
    assert OidTail(range.start) == [1] && OidTail(range.end) == [2];
    assert |SearchRangeBytes(range).value| == 16;
    assert [range][1..] == [];
    assert RangeListBytes([]) == Success([]);
    assert RangeListBytes([range]) == Success(SearchRangeBytes(range).value + []);
    GetBulkRoundTrip(p, []);
    assert GetBulkBytes(p).value + [] == GetBulkBytes(p).value;
  }

  /** The GetBulk range loop as written is the same estimate-driven loop,
      run over the payload length less the four count bytes: with two
      16-byte ranges after the counts (36 bytes in all) it reads only the
      first range, while the corrected decoder reads both. */
  lemma AsWrittenGetBulkDropsSecond()
    ensures var range := SearchRange([1, 3, 6, 1, 2, 1], [1, 3, 6, 1, 2, 2], false);
      var p := GetBulkPdu(0, 10, [range, range]);
      && GetBulkBytes(p).Success?
      && var enc := GetBulkBytes(p).value;
      && |enc| == 36
      && ParseRangesAsWritten(enc[4..], SaturatingSub(|enc|, 4)) == Success(([range], 16))
      && ParseGetBulk(enc, |enc|) == Success((p, 36))
  {
    var range := SearchRange([1, 3, 6, 1, 2, 1], [1, 3, 6, 1, 2, 2], false);
    var p := GetBulkPdu(0, 10, [range, range]);
    AsWrittenRangesDropSecond();
    var ranges := RangeListBytes([range, range]).value;
    var enc := GetBulkBytes(p).value;
    assert enc == BE16(0) + BE16(10) + ranges;
    assert enc[4..] == ranges;
    GetBulkRoundTrip(p, []);
    assert enc + [] == enc;
  }

  // =====================================================================
  // TestSet (section 6.2.8) and Notify (section 6.2.10)
  // =====================================================================

  datatype TestSetPdu = TestSetPdu(varbinds: seq<VarBind>)

  /** The bindings one after another, with no count in front. */
  function TestSetBytes(p: TestSetPdu): (r: Result<seq<byte>>)
    ensures r.Success? <==> forall i :: 0 <= i < |p.varbinds| ==> VarBindBytes(p.varbinds[i]).Success?
    ensures r.Success? ==> |r.value| >= 8 * |p.varbinds|
  {
    VarBindListBytes(p.varbinds)
  }

  /** Reads bindings until exactly the payload length has been read. */
  function ParseTestSet(s: seq<byte>, payloadLen: nat): (r: Result<(TestSetPdu, nat)>)
    ensures r.Success? ==> r.value.1 == payloadLen <= |s|
  {
    var varbinds :- ParseVarBinds(s, payloadLen);
    Success((TestSetPdu(varbinds.0), varbinds.1))
  }

  lemma TestSetRoundTrip(p: TestSetPdu, rest: seq<byte>)
    requires TestSetBytes(p).Success?
    ensures var enc := TestSetBytes(p).value;
      ParseTestSet(enc + rest, |enc|) == Success((p, |enc|))
  {
    VarBindListRoundTrip(p.varbinds, rest);
  }

  /** A TestSet body cut short, or declared one byte shorter than it is, is
      refused as truncated. */
  lemma TestSetTruncated(p: TestSetPdu, k: nat)
    requires TestSetBytes(p).Success?
    requires k < |TestSetBytes(p).value|
    ensures var enc := TestSetBytes(p).value;
      && ParseTestSet(enc[..k], |enc|) == Failure(Truncated)
      && (|p.varbinds| > 0 ==> |enc| >= 1 && ParseTestSet(enc, |enc| - 1) == Failure(Truncated))
  {
    VarBindListTruncated(p.varbinds, k);
    if |p.varbinds| > 0 {
      VarBindListOneShort(p.varbinds, []);
      assert TestSetBytes(p).value + [] == TestSetBytes(p).value;
    }
  }

  datatype NotifyPdu = NotifyPdu(varbinds: seq<VarBind>)

  /** The bindings one after another, with no count in front. */
  function NotifyBytes(p: NotifyPdu): (r: Result<seq<byte>>)
    ensures r.Success? <==> forall i :: 0 <= i < |p.varbinds| ==> VarBindBytes(p.varbinds[i]).Success?
    ensures r.Success? ==> |r.value| >= 8 * |p.varbinds|
  {
    VarBindListBytes(p.varbinds)
  }

  /** Reads bindings until exactly the payload length has been read. */
  function ParseNotify(s: seq<byte>, payloadLen: nat): (r: Result<(NotifyPdu, nat)>)
    ensures r.Success? ==> r.value.1 == payloadLen <= |s|
  {
    var varbinds :- ParseVarBinds(s, payloadLen);
    Success((NotifyPdu(varbinds.0), varbinds.1))
  }

  lemma NotifyRoundTrip(p: NotifyPdu, rest: seq<byte>)
    requires NotifyBytes(p).Success?
    ensures var enc := NotifyBytes(p).value;
      ParseNotify(enc + rest, |enc|) == Success((p, |enc|))
  {
    VarBindListRoundTrip(p.varbinds, rest);
  }

  /** A Notify body cut short, or declared one byte shorter than it is, is
      refused as truncated. */
  lemma NotifyTruncated(p: NotifyPdu, k: nat)
    requires NotifyBytes(p).Success?
    requires k < |NotifyBytes(p).value|
    ensures var enc := NotifyBytes(p).value;
      && ParseNotify(enc[..k], |enc|) == Failure(Truncated)
      && (|p.varbinds| > 0 ==> |enc| >= 1 && ParseNotify(enc, |enc| - 1) == Failure(Truncated))
  {
    VarBindListTruncated(p.varbinds, k);
    if |p.varbinds| > 0 {
      VarBindListOneShort(p.varbinds, []);
      assert NotifyBytes(p).value + [] == NotifyBytes(p).value;
    }
  }

  // =====================================================================
  // The empty bodies: CommitSet, UndoSet, CleanupSet (section 6.2.9) and
  // Ping (section 6.2.12)
  // =====================================================================

  datatype EmptyPdu = CommitSet | UndoSet | CleanupSet | Ping

  /** An empty body writes no bytes. */
  function EmptyBytes(p: EmptyPdu): (r: seq<byte>)
    ensures |r| == 0
  {
    []
  }

  /** The decoder of an empty body reads nothing and cannot fail, whatever
      follows. */
  function ParseEmpty(kind: EmptyPdu, s: seq<byte>): (r: Result<(EmptyPdu, nat)>)
    ensures r.Success? && r.value.0 == kind && r.value.1 == 0
  {
    Success((kind, 0))
  }

  lemma EmptyRoundTrip(p: EmptyPdu, rest: seq<byte>)
    ensures |EmptyBytes(p)| == 0
    ensures ParseEmpty(p, EmptyBytes(p) + rest) == Success((p, 0))
  {
  }

  // =====================================================================
  // Response (section 6.2.16)
  // =====================================================================

  datatype ResponseError =
    | NoError | OpenFailed | NotOpen | IndexWrongType | IndexAlreadyAllocated
    | IndexNoneAvailable | IndexNotAllocated | UnsupportedContext | DuplicateRegistration
    | UnknownRegistration | UnknownAgentCaps | ParseError | RequestDenied | ProcessingError

  /** The error codes of section 6.2.16: 0 for no error, 256..268 otherwise. */
  function ResponseErrorCode(e: ResponseError): (c: u16)
    ensures c == 0 <==> e == NoError
    ensures c != 0 ==> 256 <= c <= 268
  {
    match e
    case NoError => 0
    case OpenFailed => 256
    case NotOpen => 257
    case IndexWrongType => 258
    case IndexAlreadyAllocated => 259
    case IndexNoneAvailable => 260
    case IndexNotAllocated => 261
    case UnsupportedContext => 262
    case DuplicateRegistration => 263
    case UnknownRegistration => 264
    case UnknownAgentCaps => 265
    case ParseError => 266
    case RequestDenied => 267
    case ProcessingError => 268
  }

  /** `ResponseError::from`: the known codes map to their errors and every
      other code is taken as ProcessingError. */
  function ResponseErrorFrom(c: u16): (e: ResponseError)
    ensures (c == 0 || 256 <= c <= 268) ==> ResponseErrorCode(e) == c
    ensures !(c == 0 || 256 <= c <= 268) ==> e == ProcessingError
  {
    match c
    case 0 => NoError
    case 256 => OpenFailed
    case 257 => NotOpen
    case 258 => IndexWrongType
    case 259 => IndexAlreadyAllocated
    case 260 => IndexNoneAvailable
    case 261 => IndexNotAllocated
    case 262 => UnsupportedContext
    case 263 => DuplicateRegistration
    case 264 => UnknownRegistration
    case 265 => UnknownAgentCaps
    case 266 => ResponseError.ParseError
    case 267 => RequestDenied
    case 268 => ProcessingError
    case _ => ProcessingError
  }

  lemma ResponseErrorRoundTrip(e: ResponseError)
    ensures ResponseErrorFrom(ResponseErrorCode(e)) == e
  {
  }

  datatype ResponsePdu = ResponsePdu(sysUptime: u32, error: ResponseError, index: u16, varbinds: seq<VarBind>)

  /** `ResponsePdu::new`: a successful response carrying bindings. */
  function NewResponse(sysUptime: u32, varbinds: seq<VarBind>): (p: ResponsePdu)
    ensures p.sysUptime == sysUptime && p.varbinds == varbinds
    ensures p.error == NoError && p.index == 0
  {
    ResponsePdu(sysUptime, NoError, 0, varbinds)
  }

  /** `ResponsePdu::error`: an error response carries no bindings. */
  function ErrorResponse(sysUptime: u32, error: ResponseError, index: u16): (p: ResponsePdu)
    ensures p.sysUptime == sysUptime && p.error == error && p.index == index
    ensures p.varbinds == []
  {
    ResponsePdu(sysUptime, error, index, [])
  }

  /** The uptime, the error code and the index, big-endian, then the
      bindings. */
  function ResponseBytes(p: ResponsePdu): (r: Result<seq<byte>>)
    ensures r.Success? <==> VarBindListBytes(p.varbinds).Success?
    ensures r.Success? ==> |r.value| >= 8
  {
    var varbinds :- VarBindListBytes(p.varbinds);
    Success(BE32(p.sysUptime) + BE16(ResponseErrorCode(p.error)) + BE16(p.index) + varbinds)
  }

  /** The 8-byte header of a response, read as the decoder reads it. */
  function ResponseHeader(s: seq<byte>): (u32, ResponseError, u16)
    requires |s| >= 8
  {
    (FromBE32(s), ResponseErrorFrom(FromBE16(s[4..])), FromBE16(s[6..]))
  }

  lemma ResponseHeaderOf(p: ResponsePdu, tail: seq<byte>)
    ensures |BE32(p.sysUptime) + BE16(ResponseErrorCode(p.error)) + BE16(p.index) + tail| >= 8
    ensures ResponseHeader(BE32(p.sysUptime) + BE16(ResponseErrorCode(p.error)) + BE16(p.index) + tail)
         == (p.sysUptime, p.error, p.index)
  {
    var s := BE32(p.sysUptime) + BE16(ResponseErrorCode(p.error)) + BE16(p.index) + tail;
    var code := ResponseErrorCode(p.error);
    assert s == BE32(p.sysUptime) + (BE16(code) + (BE16(p.index) + tail));
    BE32RoundTrip(p.sysUptime, BE16(code) + (BE16(p.index) + tail));
    assert s[4..] == BE16(code) + (BE16(p.index) + tail);
    BE16RoundTrip(code, BE16(p.index) + tail);
    assert s[6..] == BE16(p.index) + tail;
    BE16RoundTrip(p.index, tail);
    ResponseErrorRoundTrip(p.error);
  }

  /** `ResponsePdu::decode` as written: the header only, and never any
      bindings. */
  function ParseResponseAsWritten(s: seq<byte>): (r: Result<(ResponsePdu, nat)>)
    ensures r.Success? <==> |s| >= 8
    ensures r.Success? ==> r.value.1 == 8 && r.value.0.varbinds == []
  {
    if |s| < 8 then Failure(Truncated)
    else
      var (sysUptime, error, index) := ResponseHeader(s);
      Success((ResponsePdu(sysUptime, error, index, []), 8))
  }

  /** The decoder with the bindings read: the header, then bindings until
      the payload length less the eight header bytes has been read. */
  function ParseResponse(s: seq<byte>, payloadLen: nat): (r: Result<(ResponsePdu, nat)>)
    ensures r.Success? ==> 8 <= r.value.1 <= |s|
    ensures r.Success? && payloadLen >= 8 ==> r.value.1 == payloadLen
    ensures r.Success? && payloadLen < 8 ==> r.value.1 == 8 && r.value.0.varbinds == []
  {
    if |s| < 8 then Failure(Truncated)
    else
      var (sysUptime, error, index) := ResponseHeader(s);
      var varbinds :- ParseVarBinds(s[8..], SaturatingSub(payloadLen, 8));
      Success((ResponsePdu(sysUptime, error, index, varbinds.0), 8 + varbinds.1))
  }

  method DecodeResponse(s: seq<byte>, payloadLen: nat) returns (r: Result<(ResponsePdu, nat)>)
    ensures r == ParseResponse(s, payloadLen)
  {
    if |s| < 8 {
      return Failure(Truncated);
    }
    var header := ResponseHeader(s);
    var varbinds := DecodeVarBinds(s[8..], SaturatingSub(payloadLen, 8));
    ParseResponseOf(s, payloadLen, varbinds);
    if varbinds.Failure? {
      return Failure(varbinds.error);
    }
    return Success((ResponsePdu(header.0, header.1, header.2, varbinds.value.0), 8 + varbinds.value.1));
  }

  /** A Response parse is its binding-list parse with the fixed header in front. */
  lemma ParseResponseOf(s: seq<byte>, payloadLen: nat, varbinds: Result<(seq<VarBind>, nat)>)
    requires |s| >= 8 && varbinds == ParseVarBinds(s[8..], SaturatingSub(payloadLen, 8))
    ensures varbinds.Failure? ==> ParseResponse(s, payloadLen) == Failure(varbinds.error)
    ensures varbinds.Success? ==>
      var (sysUptime, error, index) := ResponseHeader(s);
      ParseResponse(s, payloadLen)
      == Success((ResponsePdu(sysUptime, error, index, varbinds.value.0), 8 + varbinds.value.1))
  {
    if varbinds.Success? {
      assert varbinds.Extract() == varbinds.value;
    }
  }

  lemma ResponseRoundTrip(p: ResponsePdu, rest: seq<byte>)
    requires ResponseBytes(p).Success?
    ensures var enc := ResponseBytes(p).value;
      ParseResponse(enc + rest, |enc|) == Success((p, |enc|))
  {
    var varbinds := VarBindListBytes(p.varbinds).value;
    var enc := ResponseBytes(p).value;
    var s := enc + rest;
    var head := BE32(p.sysUptime) + BE16(ResponseErrorCode(p.error)) + BE16(p.index);
    assert |head| == 8;
    assert s == head + (varbinds + rest);
    ResponseHeaderOf(p, varbinds + rest);
    assert s[8..] == varbinds + rest;
    VarBindListRoundTrip(p.varbinds, rest);
    assert SaturatingSub(|enc|, 8) == |varbinds|;
  }

  /** A Response body cut short, or declared one byte shorter than it is,
      is refused as truncated. */
  lemma ResponseTruncated(p: ResponsePdu, k: nat)
    requires ResponseBytes(p).Success?
    requires k < |ResponseBytes(p).value|
    ensures var enc := ResponseBytes(p).value;
      && ParseResponse(enc[..k], |enc|) == Failure(Truncated)
      && (|p.varbinds| > 0 ==> |enc| >= 1 && ParseResponse(enc, |enc| - 1) == Failure(Truncated))
  {
    var varbinds := VarBindListBytes(p.varbinds).value;
    var enc := ResponseBytes(p).value;
    var head := BE32(p.sysUptime) + BE16(ResponseErrorCode(p.error)) + BE16(p.index);
    assert enc == head + varbinds && |head| == 8;
    assert ParseResponse(enc[..k], |enc|) == Failure(Truncated) by {
      assert SaturatingSub(|enc|, 8) == |varbinds|;
      if k >= 8 {
        assert enc[..k] == head + varbinds[..k - 8];
        assert enc[..k][8..] == varbinds[..k - 8];
        VarBindListTruncated(p.varbinds, k - 8);
      }
    }
    if |p.varbinds| > 0 {
      VarBindListOneShort(p.varbinds, []);
      assert enc[8..] == varbinds + [];
      assert SaturatingSub(|enc| - 1, 8) == |varbinds| - 1;
    }
  }

  /** As written, a response loses every binding it carries, while the
      header survives; with the bindings read, it comes back whole. */
  lemma AsWrittenResponseDropsVarBinds(p: ResponsePdu, rest: seq<byte>)
    requires ResponseBytes(p).Success?
    ensures var enc := ResponseBytes(p).value;
      && ParseResponseAsWritten(enc + rest) == Success((p.(varbinds := []), 8))
      && (|p.varbinds| > 0 ==> ParseResponseAsWritten(enc + rest).value.0 != p)
      && ParseResponse(enc + rest, |enc|) == Success((p, |enc|))
  {
    var varbinds := VarBindListBytes(p.varbinds).value;
    var enc := ResponseBytes(p).value;
    var head := BE32(p.sysUptime) + BE16(ResponseErrorCode(p.error)) + BE16(p.index);
    assert enc + rest == head + (varbinds + rest);
    ResponseHeaderOf(p, varbinds + rest);
    ResponseRoundTrip(p, rest);
  }

  /** `ResponsePdu::new(1000, [])` encodes to the 8-byte header alone. */
  lemma EmptyResponseExample()
    ensures ResponseBytes(NewResponse(1000, [])).Success?
    ensures |ResponseBytes(NewResponse(1000, [])).value| == 8
  {
    assert VarBindListBytes([]) == Success([]);
  }
}
