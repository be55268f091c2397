/** The element lists that PDU bodies carry: variable-binding lists
    (TestSet, Notify, Response) and search-range lists (Get, GetNext,
    GetBulk).  A list has no count on the wire; the decoder keeps reading
    elements until the bytes it has consumed reach the payload length.

    The list codec is written once, over any element codec given as an
    encoder and a parser; the laws it needs of the element codec are stated
    as predicates and discharged for bindings and ranges further down. */
module Lists {
  import opened Wire
  import opened Pdu

  // =====================================================================
  // Laws of an element codec
  // =====================================================================

  /** Every successful parse consumes at least one byte and no more than
      it was given. */
  ghost predicate Advances<T>(parse: seq<byte> -> Result<(T, nat)>) {
    forall s: seq<byte> :: parse(s).Success? ==> 1 <= parse(s).value.1 <= |s|
  }

  /** Parsing an encoding gives the element back and consumes exactly the
      encoding, whatever follows it. */
  ghost predicate RoundTrips<T(!new)>(encode: T -> Result<seq<byte>>, parse: seq<byte> -> Result<(T, nat)>) {
    forall x: T, rest: seq<byte> {:trigger parse(encode(x).value + rest)} ::
      encode(x).Success? ==> parse(encode(x).value + rest) == Success((x, |encode(x).value|))
  }

  /** Every encoding takes at least two bytes. */
  ghost predicate Wide<T(!new)>(encode: T -> Result<seq<byte>>) {
    forall x: T :: encode(x).Success? ==> |encode(x).value| >= 2
  }

  /** A strict prefix of an encoding is refused as truncated. */
  ghost predicate RefusesPrefixes<T(!new)>(encode: T -> Result<seq<byte>>, parse: seq<byte> -> Result<(T, nat)>) {
    forall x: T, k: nat {:trigger parse(encode(x).value[..k])} ::
      encode(x).Success? && k < |encode(x).value| ==> parse(encode(x).value[..k]) == Failure(Truncated)
  }

  // =====================================================================
  // Encoding a list
  // =====================================================================

  /** Puts already-written bytes in front of the encoding of the rest of a
      list; a failure in the rest is the failure of the whole. */
  function Prefixed(out: seq<byte>, r: Result<seq<byte>>): Result<seq<byte>> {
    if r.Failure? then Failure(r.error) else Success(out + r.value)
  }

  lemma PrefixedNothing(r: Result<seq<byte>>)
    ensures Prefixed([], r) == r
  {
    if r.Success? {
      assert [] + r.value == r.value;
    }
  }

  lemma PrefixedTwice(a: seq<byte>, b: seq<byte>, r: Result<seq<byte>>)
    ensures Prefixed(a, Prefixed(b, r)) == Prefixed(a + b, r)
  {
    if r.Success? {
      assert a + (b + r.value) == a + b + r.value;
    }
  }

  /** The elements one after another, with nothing between them; the first
      element that cannot be encoded stops the whole list. */
  function ListBytes<T>(encode: T -> Result<seq<byte>>, xs: seq<T>): Result<seq<byte>>
    decreases |xs|
  {
    if |xs| == 0 then Success([])
    else
      var head :- encode(xs[0]);
      Prefixed(head, ListBytes(encode, xs[1..]))
  }

  /** When every encoding of an element takes at least `m` bytes, a list
      takes at least `m` bytes per element. */
  lemma {:induction false} ListBytesAtLeast<T>(encode: T -> Result<seq<byte>>, xs: seq<T>, m: nat)
    requires forall x :: encode(x).Success? ==> |encode(x).value| >= m
    ensures ListBytes(encode, xs).Success? ==> |ListBytes(encode, xs).value| >= m * |xs|
    decreases |xs|
  {
    if |xs| > 0 {
      ListBytesAtLeast(encode, xs[1..], m);
    }
  }

  /** A list encodes exactly when each of its elements does. */
  lemma {:induction false} ListBytesSuccess<T>(encode: T -> Result<seq<byte>>, xs: seq<T>)
    ensures ListBytes(encode, xs).Success? <==> forall i :: 0 <= i < |xs| ==> encode(xs[i]).Success?
    decreases |xs|
  {
    if |xs| > 0 {
      ListBytesSuccess(encode, xs[1..]);
      assert forall i :: 1 <= i < |xs| ==> xs[1..][i - 1] == xs[i];
    }
  }

  /** The encoder loop shared by the Get, GetBulk, TestSet, Notify and
      Response encoders: each element is written in turn, and the first
      failure is returned. */
  method EncodeList<T>(encode: T -> Result<seq<byte>>, xs: seq<T>) returns (r: Result<seq<byte>>)
    ensures r == ListBytes(encode, xs)
  {
    var out: seq<byte> := [];
    var i := 0;
    assert xs[0..] == xs;
    PrefixedNothing(ListBytes(encode, xs));
    while i < |xs|
      invariant i <= |xs|
      invariant ListBytes(encode, xs) == Prefixed(out, ListBytes(encode, xs[i..]))
    {
      assert xs[i..][0] == xs[i] && xs[i..][1..] == xs[i + 1..];
      var e := encode(xs[i]);
      if e.Failure? {
        return Failure(e.error);
      }
      PrefixedTwice(out, e.value, ListBytes(encode, xs[i + 1..]));
      out := out + e.value;
      i := i + 1;
    }
    assert xs[i..] == [] && out + [] == out;
    return Success(out);
  }

  // =====================================================================
  // Decoding a list
  // =====================================================================

  /** Puts already-decoded elements in front of the decoding of the rest. */
  function Prepend<T>(acc: seq<T>, used: nat, r: Result<(seq<T>, nat)>): Result<(seq<T>, nat)> {
    if r.Failure? then Failure(r.error) else Success((acc + r.value.0, used + r.value.1))
  }

  lemma PrependTwice<T>(a: seq<T>, m: nat, b: seq<T>, n: nat, r: Result<(seq<T>, nat)>)
    ensures Prepend(a, m, Prepend(b, n, r)) == Prepend(a + b, m + n, r)
  {
    if r.Success? {
      assert a + (b + r.value.0) == a + b + r.value.0;
    }
  }

  /** The list decoder, counting the bytes each element really took: while
      fewer than `remaining` bytes have been read, one more element is read.
      An element that runs past the payload length is refused, so a list
      that decodes fills its payload exactly. */
  function ParseList<T>(parse: seq<byte> -> Result<(T, nat)>, s: seq<byte>, remaining: nat)
    : (r: Result<(seq<T>, nat)>)
    requires Advances(parse)
    ensures r.Success? ==> |r.value.0| <= r.value.1 == remaining <= |s|
    decreases remaining
  {
    if remaining == 0 then Success(([], 0))
    else
      var x :- parse(s);
      if x.1 > remaining then Failure(Truncated)
      else Prepend([x.0], x.1, ParseList(parse, s[x.1..], remaining - x.1))
  }

  /** One turn of the decoding loop, with the element it reads named. */
  lemma ParseListStep<T>(parse: seq<byte> -> Result<(T, nat)>, s: seq<byte>, remaining: nat, x: T, n: nat)
    requires Advances(parse) && 0 < remaining && parse(s) == Success((x, n)) && n <= remaining
    ensures ParseList(parse, s, remaining) == Prepend([x], n, ParseList(parse, s[n..], remaining - n))
  {
    assert parse(s).Extract() == (x, n);
  }

  /** The element read would end past the payload. */
  lemma ParseListOvershoot<T>(parse: seq<byte> -> Result<(T, nat)>, s: seq<byte>, remaining: nat, x: T, n: nat)
    requires Advances(parse) && 0 < remaining && parse(s) == Success((x, n)) && n > remaining
    ensures ParseList(parse, s, remaining) == Failure(Truncated)
  {
    assert parse(s).Extract() == (x, n);
  }

  /** What the decoding loop knows after `bytesRead` bytes: the decoding
      of the whole is the elements read so far in front of the decoding of
      what is left. */
  ghost predicate DecodedSoFar<T>(parse: seq<byte> -> Result<(T, nat)>, s: seq<byte>, payloadLen: nat,
                                  items: seq<T>, bytesRead: nat)
    requires Advances(parse)
  {
    bytesRead <= payloadLen && bytesRead <= |s| &&
    ParseList(parse, s, payloadLen) == Prepend(items, bytesRead, ParseList(parse, s[bytesRead..], payloadLen - bytesRead))
  }

  lemma DecodedNothing<T>(parse: seq<byte> -> Result<(T, nat)>, s: seq<byte>, payloadLen: nat)
    requires Advances(parse)
    ensures DecodedSoFar(parse, s, payloadLen, [], 0)
  {
    assert s[0..] == s;
    var whole := ParseList(parse, s, payloadLen);
    if whole.Success? {
      assert [] + whole.value.0 == whole.value.0;
    }
  }

  lemma DecodedOneMore<T>(parse: seq<byte> -> Result<(T, nat)>, s: seq<byte>, payloadLen: nat,
                          items: seq<T>, bytesRead: nat, x: T, n: nat)
    requires Advances(parse) && DecodedSoFar(parse, s, payloadLen, items, bytesRead)
    requires bytesRead < payloadLen && parse(s[bytesRead..]) == Success((x, n))
    requires n <= payloadLen - bytesRead
    ensures DecodedSoFar(parse, s, payloadLen, items + [x], bytesRead + n)
  {
    var left := payloadLen - bytesRead;
    ParseListStep(parse, s[bytesRead..], left, x, n);
    assert s[bytesRead..][n..] == s[bytesRead + n..];
    var after := ParseList(parse, s[bytesRead + n..], left - n);
    PrependTwice(items, bytesRead, [x], n, after);
    assert left - n == payloadLen - (bytesRead + n);
  }

  lemma DecodedOvershoot<T>(parse: seq<byte> -> Result<(T, nat)>, s: seq<byte>, payloadLen: nat,
                            items: seq<T>, bytesRead: nat, x: T, n: nat)
    requires Advances(parse) && DecodedSoFar(parse, s, payloadLen, items, bytesRead)
    requires bytesRead < payloadLen && parse(s[bytesRead..]) == Success((x, n))
    requires n > payloadLen - bytesRead
    ensures ParseList(parse, s, payloadLen) == Failure(Truncated)
  {
    ParseListOvershoot(parse, s[bytesRead..], payloadLen - bytesRead, x, n);
  }

  lemma DecodedAll<T>(parse: seq<byte> -> Result<(T, nat)>, s: seq<byte>, payloadLen: nat,
                      items: seq<T>, bytesRead: nat)
    requires Advances(parse) && DecodedSoFar(parse, s, payloadLen, items, bytesRead)
    requires bytesRead == payloadLen
    ensures ParseList(parse, s, payloadLen) == Success((items, bytesRead))
  {
    assert ParseList(parse, s[bytesRead..], payloadLen - bytesRead) == Success(([], 0));
    assert items + [] == items;
  }

  lemma DecodedFailure<T>(parse: seq<byte> -> Result<(T, nat)>, s: seq<byte>, payloadLen: nat,
                          items: seq<T>, bytesRead: nat)
    requires Advances(parse) && DecodedSoFar(parse, s, payloadLen, items, bytesRead)
    requires bytesRead < payloadLen && parse(s[bytesRead..]).Failure?
    ensures ParseList(parse, s, payloadLen) == Failure(parse(s[bytesRead..]).error)
  {
  }

  /** The decoder loop shared by `decode_varbinds` and the Get and GetBulk
      decoders: while fewer than `payloadLen` bytes have been read, one more
      element is read, the bytes it really took are added to the count, and
      an element that would end past the payload is refused. */
  method DecodeList<T>(parse: seq<byte> -> Result<(T, nat)>, s: seq<byte>, payloadLen: nat)
    returns (r: Result<(seq<T>, nat)>)
    requires Advances(parse)
    ensures r == ParseList(parse, s, payloadLen)
  {
    var items: seq<T> := [];
    var bytesRead: nat := 0;
    DecodedNothing(parse, s, payloadLen);
    while bytesRead < payloadLen
      invariant DecodedSoFar(parse, s, payloadLen, items, bytesRead)
      decreases payloadLen - bytesRead
    {
      var next := parse(s[bytesRead..]);
      if next.Failure? {
        DecodedFailure(parse, s, payloadLen, items, bytesRead);
        return Failure(next.error);
      }
      var x, n := next.value.0, next.value.1;
      if n > payloadLen - bytesRead {
        DecodedOvershoot(parse, s, payloadLen, items, bytesRead, x, n);
        return Failure(Truncated);
      }
      DecodedOneMore(parse, s, payloadLen, items, bytesRead, x, n);
      items := items + [x];
      bytesRead := bytesRead + n;
    }
    DecodedAll(parse, s, payloadLen, items, bytesRead);
    return Success((items, bytesRead));
  }

  /** An encoded list, given its own length as the payload length, decodes
      to the same elements and consumes exactly its bytes. */
  lemma {:induction false} ListRoundTrip<T(!new)>(encode: T -> Result<seq<byte>>, parse: seq<byte> -> Result<(T, nat)>,
                                             xs: seq<T>, rest: seq<byte>)
    requires Advances(parse) && RoundTrips(encode, parse)
    requires ListBytes(encode, xs).Success?
    ensures var enc := ListBytes(encode, xs).value;
      ParseList(parse, enc + rest, |enc|) == Success((xs, |enc|))
    decreases |xs|
  {
    var enc := ListBytes(encode, xs).value;
    if |xs| == 0 {
      assert enc == [] && enc + rest == rest;
    } else {
      var head := encode(xs[0]).value;
      var tail := ListBytes(encode, xs[1..]).value;
      assert enc == head + tail;
      var s := enc + rest;
      assert s == head + (tail + rest);
      assert parse(head + (tail + rest)) == Success((xs[0], |head|));
      ParseListStep(parse, s, |enc|, xs[0], |head|);
      assert s[|head|..] == tail + rest;
      ListRoundTrip(encode, parse, xs[1..], rest);
      assert [xs[0]] + xs[1..] == xs;
    }
  }

  /** A payload shorter than its declared length, by even one byte, is
      refused as truncated. */
  lemma {:induction false} ListTruncated<T(!new)>(encode: T -> Result<seq<byte>>, parse: seq<byte> -> Result<(T, nat)>,
                                             xs: seq<T>, k: nat)
    requires Advances(parse) && RoundTrips(encode, parse) && RefusesPrefixes(encode, parse)
    requires ListBytes(encode, xs).Success?
    requires k < |ListBytes(encode, xs).value|
    ensures var enc := ListBytes(encode, xs).value;
      ParseList(parse, enc[..k], |enc|) == Failure(Truncated)
    decreases |xs|
  {
    var enc := ListBytes(encode, xs).value;
    var head := encode(xs[0]).value;
    var tail := ListBytes(encode, xs[1..]).value;
    assert enc == head + tail;
    var s := enc[..k];
    if k < |head| {
      assert s == head[..k];
      assert parse(head[..k]) == Failure(Truncated);
    } else {
      var cut := tail[..k - |head|];
      assert s == head + cut;
      assert parse(head + cut) == Success((xs[0], |head|));
      ParseListStep(parse, s, |enc|, xs[0], |head|);
      assert s[|head|..] == cut;
      ListTruncated(encode, parse, xs[1..], k - |head|);
    }
  }

  /** A declared length one byte short of an encoded list ends inside its
      last element, and the list is refused as truncated.  (With one-byte
      elements it could instead end on a boundary, so elements of at least
      two bytes are asked for.) */
  lemma {:induction false} ListOneShort<T(!new)>(encode: T -> Result<seq<byte>>, parse: seq<byte> -> Result<(T, nat)>,
                                            xs: seq<T>, rest: seq<byte>, short: nat)
    requires Advances(parse) && RoundTrips(encode, parse) && Wide(encode)
    requires ListBytes(encode, xs).Success? && |xs| > 0
    requires short + 1 == |ListBytes(encode, xs).value|
    ensures ParseList(parse, ListBytes(encode, xs).value + rest, short) == Failure(Truncated)
    decreases |xs|
  {
    var enc := ListBytes(encode, xs).value;
    var head := encode(xs[0]).value;
    var tail := ListBytes(encode, xs[1..]).value;
    assert enc == head + tail;
    var s := enc + rest;
    assert s == head + (tail + rest);
    assert parse(head + (tail + rest)) == Success((xs[0], |head|));
    if |xs| == 1 {
      ParseListOvershoot(parse, s, short, xs[0], |head|);
    } else {
      ListBytesAtLeast(encode, xs[1..], 2);
      ListOneShort(encode, parse, xs[1..], rest, short - |head|);
      ParseListStep(parse, s, short, xs[0], |head|);
      assert s[|head|..] == tail + rest;
    }
  }

  /** The source's loop, which adds an estimate computed from the decoded
      element to its byte count instead of the bytes the element took. */
  function ParseListAsWritten<T>(parse: seq<byte> -> Result<(T, nat)>, estimate: T -> nat,
                                 s: seq<byte>, remaining: int): (r: Result<(seq<T>, nat)>)
    requires Advances(parse)
    ensures r.Success? ==> |r.value.0| <= r.value.1 <= |s|
    decreases |s|
  {
    if remaining <= 0 then Success(([], 0))
    else
      var x :- parse(s);
      Prepend([x.0], x.1, ParseListAsWritten(parse, estimate, s[x.1..], remaining - estimate(x.0)))
  }

  // =====================================================================
  // Variable-binding lists
  // =====================================================================

  lemma VarBindAdvances()
    ensures Advances(ParseVarBind)
  {
  }

  /** Every binding encoding takes at least two bytes. */
  lemma VarBindWide()
    ensures Wide(VarBindBytes)
  {
  }

  lemma VarBindCodecLaws()
    ensures Advances(ParseVarBind)
    ensures RoundTrips(VarBindBytes, ParseVarBind)
    ensures RefusesPrefixes(VarBindBytes, ParseVarBind)
  {
    forall vb: VarBind, rest: seq<byte> | VarBindBytes(vb).Success?
      ensures ParseVarBind(VarBindBytes(vb).value + rest) == Success((vb, |VarBindBytes(vb).value|))
    {
      VarBindRoundTrip(vb, rest);
    }
    forall vb: VarBind, k: nat | VarBindBytes(vb).Success? && k < |VarBindBytes(vb).value|
      ensures ParseVarBind(VarBindBytes(vb).value[..k]) == Failure(Truncated)
    {
      VarBindTruncated(vb, k);
    }
  }

  /** A binding list encodes exactly when each binding does, and takes at
      least 8 bytes per binding. */
  function VarBindListBytes(vbs: seq<VarBind>): (r: Result<seq<byte>>)
    ensures r.Success? <==> forall i :: 0 <= i < |vbs| ==> VarBindBytes(vbs[i]).Success?
    ensures r.Success? ==> |r.value| >= 8 * |vbs|
  {
    ListBytesSuccess(VarBindBytes, vbs);
    ListBytesAtLeast(VarBindBytes, vbs, 8);
    ListBytes(VarBindBytes, vbs)
  }

  /** A decoded binding list fills exactly the payload length it was given. */
  function ParseVarBinds(s: seq<byte>, remaining: nat): (r: Result<(seq<VarBind>, nat)>)
    ensures r.Success? ==> r.value.1 == remaining <= |s|
  {
    VarBindAdvances();
    ParseList(ParseVarBind, s, remaining)
  }

  /** `decode_varbinds`. */
  method DecodeVarBinds(s: seq<byte>, payloadLen: nat) returns (r: Result<(seq<VarBind>, nat)>)
    ensures r == ParseVarBinds(s, payloadLen)
  {
    VarBindAdvances();
    r := DecodeList(ParseVarBind, s, payloadLen);
  }

  lemma VarBindListRoundTrip(vbs: seq<VarBind>, rest: seq<byte>)
    requires VarBindListBytes(vbs).Success?
    ensures var enc := VarBindListBytes(vbs).value;
      ParseVarBinds(enc + rest, |enc|) == Success((vbs, |enc|))
  {
    VarBindCodecLaws();
    ListRoundTrip(VarBindBytes, ParseVarBind, vbs, rest);
  }

  lemma VarBindListTruncated(vbs: seq<VarBind>, k: nat)
    requires VarBindListBytes(vbs).Success?
    requires k < |VarBindListBytes(vbs).value|
    ensures ParseVarBinds(VarBindListBytes(vbs).value[..k], |VarBindListBytes(vbs).value|) == Failure(Truncated)
  {
    VarBindCodecLaws();
    ListTruncated(VarBindBytes, ParseVarBind, vbs, k);
  }

  /** A binding list declared one byte shorter than it is is refused. */
  lemma VarBindListOneShort(vbs: seq<VarBind>, rest: seq<byte>)
    requires VarBindListBytes(vbs).Success? && |vbs| > 0
    ensures var enc := VarBindListBytes(vbs).value;
      |enc| >= 1 && ParseVarBinds(enc + rest, |enc| - 1) == Failure(Truncated)
  {
    var short: nat := |VarBindListBytes(vbs).value| - 1;
    VarBindWide();
    VarBindCodecLaws();
    ListOneShort(VarBindBytes, ParseVarBind, vbs, rest, short);
  }

  /** The size `decode_varbinds` adds for one binding: 8 + 4 per
      sub-identifier + 8, whatever the binding really took. */
  function VarBindEstimate(vb: VarBind): nat {
    16 + 4 * |vb.oid|
  }

  function ParseVarBindsAsWritten(s: seq<byte>, remaining: int): (r: Result<(seq<VarBind>, nat)>)
    ensures r.Success? ==> r.value.1 <= |s|
  {
    VarBindAdvances();
    ParseListAsWritten(ParseVarBind, VarBindEstimate, s, remaining)
  }

  // =====================================================================
  // Search-range lists
  // =====================================================================

  lemma SearchRangeAdvances()
    ensures Advances(ParseSearchRange)
  {
  }

  /** Every range encoding takes at least two bytes. */
  lemma SearchRangeWide()
    ensures Wide(SearchRangeBytes)
  {
  }

  lemma SearchRangeCodecLaws()
    ensures Advances(ParseSearchRange)
    ensures RoundTrips(SearchRangeBytes, ParseSearchRange)
    ensures RefusesPrefixes(SearchRangeBytes, ParseSearchRange)
  {
    forall r: SearchRange, rest: seq<byte> | SearchRangeBytes(r).Success?
      ensures ParseSearchRange(SearchRangeBytes(r).value + rest) == Success((r, |SearchRangeBytes(r).value|))
    {
      SearchRangeRoundTrip(r, rest);
    }
    forall r: SearchRange, k: nat | SearchRangeBytes(r).Success? && k < |SearchRangeBytes(r).value|
      ensures ParseSearchRange(SearchRangeBytes(r).value[..k]) == Failure(Truncated)
    {
      SearchRangeTruncated(r, k);
    }
  }

  /** A range list encodes exactly when each range does, and takes at
      least 8 bytes per range. */
  function RangeListBytes(ranges: seq<SearchRange>): (r: Result<seq<byte>>)
    ensures r.Success? <==> forall i :: 0 <= i < |ranges| ==> SearchRangeBytes(ranges[i]).Success?
    ensures r.Success? ==> |r.value| >= 8 * |ranges|
  {
    ListBytesSuccess(SearchRangeBytes, ranges);
    ListBytesAtLeast(SearchRangeBytes, ranges, 8);
    ListBytes(SearchRangeBytes, ranges)
  }

  /** A decoded range list fills exactly the payload length it was given. */
  function ParseRanges(s: seq<byte>, remaining: nat): (r: Result<(seq<SearchRange>, nat)>)
    ensures r.Success? ==> r.value.1 == remaining <= |s|
  {
    SearchRangeAdvances();
    ParseList(ParseSearchRange, s, remaining)
  }

  /** The range loop of the Get and GetBulk decoders. */
  method DecodeRanges(s: seq<byte>, payloadLen: nat) returns (r: Result<(seq<SearchRange>, nat)>)
    ensures r == ParseRanges(s, payloadLen)
  {
    SearchRangeAdvances();
    r := DecodeList(ParseSearchRange, s, payloadLen);
  }

  lemma RangeListRoundTrip(ranges: seq<SearchRange>, rest: seq<byte>)
    requires RangeListBytes(ranges).Success?
    ensures var enc := RangeListBytes(ranges).value;
      ParseRanges(enc + rest, |enc|) == Success((ranges, |enc|))
  {
    SearchRangeCodecLaws();
    ListRoundTrip(SearchRangeBytes, ParseSearchRange, ranges, rest);
  }

  lemma RangeListTruncated(ranges: seq<SearchRange>, k: nat)
    requires RangeListBytes(ranges).Success?
    requires k < |RangeListBytes(ranges).value|
    ensures ParseRanges(RangeListBytes(ranges).value[..k], |RangeListBytes(ranges).value|) == Failure(Truncated)
  {
    SearchRangeCodecLaws();
    ListTruncated(SearchRangeBytes, ParseSearchRange, ranges, k);
  }

  /** A range list declared one byte shorter than it is is refused. */
  lemma RangeListOneShort(ranges: seq<SearchRange>, rest: seq<byte>)
    requires RangeListBytes(ranges).Success? && |ranges| > 0
    ensures var enc := RangeListBytes(ranges).value;
      |enc| >= 1 && ParseRanges(enc + rest, |enc| - 1) == Failure(Truncated)
  {
    var short: nat := |RangeListBytes(ranges).value| - 1;
    SearchRangeWide();
    SearchRangeCodecLaws();
    ListOneShort(SearchRangeBytes, ParseSearchRange, ranges, rest, short);
  }

  /** The size the Get and GetBulk decoders add for one range: 8 + 4 per
      sub-identifier of both identifiers. */
  function RangeEstimate(r: SearchRange): nat {
    8 + 4 * (|r.start| + |r.end|)
  }

  function ParseRangesAsWritten(s: seq<byte>, remaining: int): (r: Result<(seq<SearchRange>, nat)>)
    ensures r.Success? ==> r.value.1 <= |s|
  {
    SearchRangeAdvances();
    ParseListAsWritten(ParseSearchRange, RangeEstimate, s, remaining)
  }

  // =====================================================================
  // Counterexamples for the estimated byte counts
  // =====================================================================

  lemma ListBytesPair<T>(encode: T -> Result<seq<byte>>, x: T, a: seq<byte>)
    requires encode(x) == Success(a)
    ensures ListBytes(encode, [x, x]) == Success(a + a)
  {
    assert [x, x][1..] == [x] && [x][1..] == [];
    assert ListBytes(encode, []) == Success([]);
    assert ListBytes(encode, [x]) == Success(a + []);
    assert a + [] == a;
  }

  /** When the estimate for the first element already covers the payload
      length, the decoder as written stops after that one element. */
  lemma AsWrittenStopsAfterOne<T>(parse: seq<byte> -> Result<(T, nat)>, estimate: T -> nat,
                                  s: seq<byte>, remaining: int, x: T, n: nat)
    requires Advances(parse) && remaining > 0 && parse(s) == Success((x, n))
    requires remaining <= estimate(x)
    ensures ParseListAsWritten(parse, estimate, s, remaining) == Success(([x], n))
  {
    assert parse(s).Extract() == (x, n);
    assert ParseListAsWritten(parse, estimate, s[n..], remaining - estimate(x)) == Success(([], 0));
    assert [x] + [] == [x];
  }

  /** Two bindings of 1.3.6.1.2.1 to Null take 12 bytes each.  The estimate
      counts 40 for the first, so the decoder as written stops after one
      binding and leaves the second unread; counting real bytes reads both. */
  lemma AsWrittenVarBindsDropSecond()
    ensures var vb := VarBind([1, 3, 6, 1, 2, 1], Null);
      && VarBindListBytes([vb, vb]).Success?
      && var enc := VarBindListBytes([vb, vb]).value;
      && |enc| == 24
      && ParseVarBindsAsWritten(enc, |enc|) == Success(([vb], 12))
      && ParseVarBinds(enc, |enc|) == Success(([vb, vb], 24))
  {
    var vb := VarBind([1, 3, 6, 1, 2, 1], Null);
    assert OidTail(vb.oid) == [1];
    assert |OidBytes(vb.oid, false).value| == 8;
    var a := VarBindBytes(vb).value;
    assert |a| == 12;
    ListBytesPair(VarBindBytes, vb, a);
    var enc := a + a;
    VarBindRoundTrip(vb, a);
    VarBindCodecLaws();
    AsWrittenStopsAfterOne(ParseVarBind, VarBindEstimate, enc, 24, vb, 12);
    VarBindListRoundTrip([vb, vb], []);
    assert enc + [] == enc;
  }

  /** Two ranges 1.3.6.1.2.1 .. 1.3.6.1.2.2 take 16 bytes each; the estimate
      counts 56 for the first, so the second is left unread. */
  lemma AsWrittenRangesDropSecond()
    ensures var range := SearchRange([1, 3, 6, 1, 2, 1], [1, 3, 6, 1, 2, 2], false);
      && RangeListBytes([range, range]).Success?
      && var enc := RangeListBytes([range, range]).value;
      && |enc| == 32
      && ParseRangesAsWritten(enc, |enc|) == Success(([range], 16))
      && ParseRanges(enc, |enc|) == Success(([range, range], 32))
  {
    var range := SearchRange([1, 3, 6, 1, 2, 1], [1, 3, 6, 1, 2, 2], false);
    assert OidTail(range.start) == [1] && OidTail(range.end) == [2];
    assert |OidBytes(range.start, false).value| == 8;
    assert |OidBytes(range.end, false).value| == 8;
    var a := SearchRangeBytes(range).value;
    assert |a| == 16;
    ListBytesPair(SearchRangeBytes, range, a);
    var enc := a + a;
    SearchRangeRoundTrip(range, a);
    SearchRangeCodecLaws();
    AsWrittenStopsAfterOne(ParseSearchRange, RangeEstimate, enc, 32, range, 16);
    RangeListRoundTrip([range, range], []);
    assert enc + [] == enc;
  }
}
