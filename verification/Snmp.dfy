/** SNMP v1/v2c messages: parsing a request, answering it from the value table, and what a manager reads back. */
module Snmp {
  import opened Wrappers
  import opened Bytes
  import opened Ber
  import opened Mib
  import opened Sequences

  const MAX_VARBINDS: nat := 32
  const GET: Byte := 0xa0
  const GET_NEXT: Byte := 0xa1
  const GET_BULK: Byte := 0xa5
  const SYS_UPTIME: Oid := [1, 3, 6, 1, 2, 1, 1, 3, 0]

  datatype Request = Request(
    version: int, community: seq<Byte>, pduTag: Byte, requestId: int, maxRepetitions: nat, oids: seq<Oid>)

  datatype Value = TimeTicks(ticks: int) | Text(text: seq<Byte>) | Null

  datatype Varbind = Varbind(oid: Oid, value: Value)

  datatype Response = Response(
    version: int, community: seq<Byte>, requestId: int, errorStatus: int, errorIndex: int, varbinds: seq<Varbind>)

  predicate RequestTag(tag: Byte) {
    tag == GET || tag == GET_NEXT || tag == GET_BULK
  }

  predicate AllAccepted(oids: seq<Oid>) {
    forall i :: 0 <= i < |oids| ==> Accepted(oids[i])
  }

  predicate AllRepresentable(oids: seq<Oid>)
    ensures AllRepresentable(oids) ==> AllAccepted(oids)
  {
    forall i :: 0 <= i < |oids| ==> Representable(oids[i])
  }

  // ---------------------------------------------------------------------------
  // Parsing a request
  // ---------------------------------------------------------------------------

  function VarbindOid(varbind: Tlv): (r: Option<Oid>)
    ensures r.Some? ==> Representable(r.value)
  {
    if varbind.tag != 0x30 then None
    else match TlvAt(varbind.value, 0)
      case Fail => None
      case Done(oid, next) =>
        if TlvAt(varbind.value, next).Fail? || oid.tag != 0x06 || DecodedOid(oid.value).None? then None
        else
          DecodedIsRepresentable(oid.value);
          DecodedOid(oid.value)
  }

  function VarbindAt(list: seq<Byte>, cursor: nat): (r: Read<Oid>)
    ensures r.Done? ==> cursor < r.next <= |list| && Representable(r.value)
  {
    match TlvAt(list, cursor)
    case Fail => Fail
    case Done(varbind, next) =>
      match VarbindOid(varbind)
      case None => Fail
      case Some(oid) => Done(oid, next)
  }

  /** At most `room` identifiers, each of which can be encoded again. */
  predicate Fits(oids: Option<seq<Oid>>, room: int) {
    oids.Some? ==> |oids.value| <= room && AllRepresentable(oids.value)
  }

  lemma FitsStep(oid: Oid, after: Option<seq<Oid>>, room: int)
    requires Representable(oid) && Fits(after, room)
    ensures Fits(Prepended([oid], after), room + 1)
  {
  }

  /** The identifiers of the varbinds from `cursor` on, when `seen` of them came before. */
  function VarbindOids(list: seq<Byte>, cursor: nat, seen: nat): (r: Option<seq<Oid>>)
    requires seen <= MAX_VARBINDS
    ensures Fits(r, MAX_VARBINDS - seen)
    decreases |list| - cursor
  {
    if cursor >= |list| then Some([])
    else if seen >= MAX_VARBINDS then None
    else match VarbindAt(list, cursor)
      case Fail => None
      case Done(oid, next) =>
        var after := VarbindOids(list, next, seen + 1);
        FitsStep(oid, after, MAX_VARBINDS - seen - 1);
        Prepended([oid], after)
  }

  method ParseVarbindOid(varbind: Tlv) returns (r: Option<Oid>)
    ensures r == VarbindOid(varbind)
  {
    if varbind.tag != 0x30 {
      return None;
    }
    var oid := ReadTlv(varbind.value, 0);
    if oid.Fail? {
      return None;
    }
    var value := ReadTlv(varbind.value, oid.next);
    if value.Fail? || oid.value.tag != 0x06 {
      return None;
    }
    r := DecodeOid(oid.value.value);
  }

  method ReadVarbind(list: seq<Byte>, cursor: nat) returns (r: Read<Oid>)
    ensures r == VarbindAt(list, cursor)
  {
    var varbind := ReadTlv(list, cursor);
    if varbind.Fail? {
      return Fail;
    }
    var oid := ParseVarbindOid(varbind.value);
    if oid.None? {
      return Fail;
    }
    return Done(oid.value, varbind.next);
  }

  /** The varbind loop. It ends because every element read moves the cursor forward. */
  method ParseVarbinds(list: seq<Byte>) returns (r: Option<seq<Oid>>)
    ensures r == VarbindOids(list, 0, 0)
  {
    hide VarbindAt;
    var oids: seq<Oid> := [];
    var cursor := 0;
    PrependNothing(VarbindOids(list, 0, 0));
    while cursor < |list|
      invariant |oids| <= MAX_VARBINDS
      invariant VarbindOids(list, 0, 0) == Prepended(oids, VarbindOids(list, cursor, |oids|))
      decreases |list| - cursor
    {
      if |oids| >= MAX_VARBINDS {
        return None;
      }
      var oid := ReadVarbind(list, cursor);
      if oid.Fail? {
        return None;
      }
      PrependMore(oids, oid.value, VarbindOids(list, oid.next, |oids| + 1));
      oids := oids + [oid.value];
      cursor := oid.next;
    }
    PrependToEnd(oids);
    return Some(oids);
  }

  function Prepended(before: seq<Oid>, after: Option<seq<Oid>>): Option<seq<Oid>> {
    match after case None => None case Some(rest) => Some(before + rest)
  }

  lemma PrependNothing(after: Option<seq<Oid>>)
    ensures Prepended([], after) == after
  {
    assert after.Some? ==> [] + after.value == after.value;
  }

  lemma PrependToEnd(before: seq<Oid>)
    ensures Prepended(before, Some([])) == Some(before)
  {
    assert before + [] == before;
  }

  lemma PrependMore(before: seq<Oid>, oid: Oid, after: Option<seq<Oid>>)
    ensures Prepended(before, Prepended([oid], after)) == Prepended(before + [oid], after)
  {
    assert after.Some? ==> before + ([oid] + after.value) == (before + [oid]) + after.value;
  }

  function Repetitions(tag: Byte, control: seq<Byte>): Option<nat> {
    if tag != GET_BULK then Some(1)
    else match DecodedInteger(control)
      case None => None
      case Some(v) => Some(if v < 0 then 0 else Min(v, MAX_VARBINDS))
  }

  /** The body of a request: request id, two control integers and the varbind list. */
  function ParsedPdu(version: int, community: seq<Byte>, pdu: Tlv): Option<Request> {
    match TlvAt(pdu.value, 0)
    case Fail => None
    case Done(requestId, c1) =>
      match TlvAt(pdu.value, c1)
      case Fail => None
      case Done(first, c2) =>
        match TlvAt(pdu.value, c2)
        case Fail => None
        case Done(second, c3) =>
          match TlvAt(pdu.value, c3)
          case Fail => None
          case Done(list, _) =>
            if requestId.tag != 0x02 || first.tag != 0x02 || second.tag != 0x02 || list.tag != 0x30 then None
            else
              var repetitions, oids, id :=
                Repetitions(pdu.tag, second.value), VarbindOids(list.value, 0, 0), DecodedInteger(requestId.value);
              if repetitions.None? || oids.None? || oids.value == [] || id.None? then None
              else Some(Request(version, community, pdu.tag, id.value, repetitions.value, oids.value))
  }

  function ParsedRequest(message: seq<Byte>): Option<Request> {
    match TlvAt(message, 0)
    case Fail => None
    case Done(envelope, end) =>
      if envelope.tag != 0x30 || end != |message| then None
      else match TlvAt(envelope.value, 0)
        case Fail => None
        case Done(version, c1) =>
          match TlvAt(envelope.value, c1)
          case Fail => None
          case Done(community, c2) =>
            match TlvAt(envelope.value, c2)
            case Fail => None
            case Done(pdu, _) =>
              if version.tag != 0x02 || community.tag != 0x04 || !RequestTag(pdu.tag) then None
              else match DecodedInteger(version.value)
                case None => None
                case Some(v) => if v != 0 && v != 1 then None else ParsedPdu(v, community.value, pdu)
  }

  method ParsePdu(version: int, community: seq<Byte>, pdu: Tlv) returns (r: Option<Request>)
    ensures r == ParsedPdu(version, community, pdu)
  {
    var requestId := ReadTlv(pdu.value, 0);
    if requestId.Fail? { return None; }
    var first := ReadTlv(pdu.value, requestId.next);
    if first.Fail? { return None; }
    var second := ReadTlv(pdu.value, first.next);
    if second.Fail? { return None; }
    var list := ReadTlv(pdu.value, second.next);
    if list.Fail? { return None; }
    if requestId.value.tag != 0x02 || first.value.tag != 0x02 || second.value.tag != 0x02 || list.value.tag != 0x30 {
      return None;
    }
    var maxRepetitions: nat := 1;
    if pdu.tag == GET_BULK {
      var repetitions := DecodeInteger(second.value.value);
      if repetitions.None? { return None; }
      maxRepetitions := if repetitions.value < 0 then 0 else Min(repetitions.value, MAX_VARBINDS);
    }
    var oids := ParseVarbinds(list.value.value);
    if oids.None? || oids.value == [] { return None; }
    var id := DecodeInteger(requestId.value.value);
    if id.None? { return None; }
    return Some(Request(version, community, pdu.tag, id.value, maxRepetitions, oids.value));
  }

  method ParseRequest(message: seq<Byte>) returns (r: Option<Request>)
    ensures r == ParsedRequest(message)
  {
    var envelope := ReadTlv(message, 0);
    if envelope.Fail? || envelope.value.tag != 0x30 || envelope.next != |message| { return None; }
    var body := envelope.value.value;
    var version := ReadTlv(body, 0);
    if version.Fail? { return None; }
    var community := ReadTlv(body, version.next);
    if community.Fail? { return None; }
    var pdu := ReadTlv(body, community.next);
    if pdu.Fail? { return None; }
    if version.value.tag != 0x02 || community.value.tag != 0x04 || !RequestTag(pdu.value.tag) { return None; }
    var number := DecodeInteger(version.value.value);
    if number.None? || (number.value != 0 && number.value != 1) { return None; }
    r := ParsePdu(number.value, community.value.value, pdu.value);
  }

  predicate WellFormed(request: Request) {
    && 0 <= request.version <= 1
    && RequestTag(request.pduTag)
    && -TWO_63 <= request.requestId < TWO_63
    && request.maxRepetitions <= 32
    && 1 <= |request.oids| <= 32
    && AllRepresentable(request.oids)
  }

  lemma DecodedIntegerBound(bytes: seq<Byte>)
    ensures match DecodedInteger(bytes) case None => true case Some(v) => -TWO_63 <= v < TWO_63
  {
    if 1 <= |bytes| <= 8 {
      TopBit(bytes);
      Pow256Values();
      Pow256Monotone(|bytes| - 1, 7);
    }
  }

  lemma ParsedRequestIsWellFormed(message: seq<Byte>)
    ensures match ParsedRequest(message) case None => true case Some(request) => WellFormed(request)
  {
    if ParsedRequest(message).Some? {
      var body := TlvAt(message, 0).value.value;
      var c1 := TlvAt(body, 0).next;
      var pdu := TlvAt(body, TlvAt(body, c1).next).value;
      ParsedPduIsWellFormed(DecodedInteger(TlvAt(body, 0).value.value).value, TlvAt(body, c1).value.value, pdu);
    }
  }

  lemma ParsedPduIsWellFormed(version: int, community: seq<Byte>, pdu: Tlv)
    requires 0 <= version <= 1 && RequestTag(pdu.tag)
    ensures match ParsedPdu(version, community, pdu) case None => true case Some(request) => WellFormed(request)
  {
    if ParsedPdu(version, community, pdu).Some? {
      var id := TlvAt(pdu.value, 0);
      var second := TlvAt(pdu.value, TlvAt(pdu.value, id.next).next);
      var list := TlvAt(pdu.value, second.next).value;
      DecodedIntegerBound(id.value.value);
    }
  }

  // ---------------------------------------------------------------------------
  // Printing a request, as `get_request` does, for any operation and any list of identifiers
  // ---------------------------------------------------------------------------

  function IntegerTlv(value: I64): Tlv {
    Tlv(0x02, IntegerContent(value))
  }

  function QueryTlv(oid: Oid): Tlv
    requires Accepted(oid)
  {
    Tlv(0x30, Encoded([Tlv(0x06, OidContent(oid)), Tlv(0x05, [])]))
  }

  function QueryTlvs(oids: seq<Oid>): (r: seq<Tlv>)
    requires AllAccepted(oids)
    ensures |r| == |oids|
  {
    seq(|oids|, i requires 0 <= i < |oids| => QueryTlv(oids[i]))
  }

  function RequestPdu(requestId: I64, first: I64, second: I64, oids: seq<Oid>): seq<Tlv>
    requires AllAccepted(oids)
  {
    [IntegerTlv(requestId), IntegerTlv(first), IntegerTlv(second), Tlv(0x30, Encoded(QueryTlvs(oids)))]
  }

  function RequestBody(version: I64, community: seq<Byte>, tag: Byte, pdu: seq<Tlv>): seq<Tlv> {
    [IntegerTlv(version), Tlv(0x04, community), Tlv(tag, Encoded(pdu))]
  }

  function PrintedRequest(
    version: I64, community: seq<Byte>, tag: Byte, requestId: I64, first: I64, second: I64, oids: seq<Oid>): seq<Byte>
    requires AllAccepted(oids)
  {
    Wrapped(0x30, Encoded(RequestBody(version, community, tag, RequestPdu(requestId, first, second, oids))))
  }

  lemma {:induction false} ElementFits(elements: seq<Tlv>, e: Tlv)
    requires e in elements
    ensures |e.value| < |Encoded(elements)|
  {
    var init, last := elements[..|elements| - 1], elements[|elements| - 1];
    if e != last {
      assert elements == init + [last];
      ElementFits(init, e);
    }
  }

  /** Elements whose encoding is below 2^32 octets can all be read. */
  lemma SmallIsReadable(elements: seq<Tlv>)
    requires |Encoded(elements)| < TWO_32
    ensures Readable(elements)
  {
    forall e | e in elements
      ensures |e.value| < TWO_32
    {
      ElementFits(elements, e);
    }
  }

  /** Reading the first, second, ... element of a short list. */
  lemma ReadsInOrder(elements: seq<Tlv>)
    requires Readable(elements) && 3 <= |elements| <= 4
    ensures TlvAt(Encoded(elements), 0) == Done(elements[0], |Encoded(elements[..1])|)
    ensures TlvAt(Encoded(elements), |Encoded(elements[..1])|) == Done(elements[1], |Encoded(elements[..2])|)
    ensures TlvAt(Encoded(elements), |Encoded(elements[..2])|) == Done(elements[2], |Encoded(elements[..3])|)
    ensures |elements| == 4 ==>
              TlvAt(Encoded(elements), |Encoded(elements[..3])|) == Done(elements[3], |Encoded(elements[..4])|)
  {
    hide TlvAt, Wrapped;
    assert Encoded(elements[..0]) == [];
    ElementRead(elements, 0);
    ElementRead(elements, 1);
    ElementRead(elements, 2);
    if |elements| == 4 {
      ElementRead(elements, 3);
    }
  }

  lemma QueryReads(oid: Oid)
    requires Representable(oid) && |Encoded([Tlv(0x06, OidContent(oid)), Tlv(0x05, [])])| < TWO_32
    ensures VarbindOid(QueryTlv(oid)) == Some(oid)
  {
    hide TlvAt, Encoded, Representable, DecodedOid, OidContent;
    VarbindOidReads(0x30, 0x06, oid, Tlv(0x05, []));
  }

  /** The varbind at position `k` of a printed list, where the list reader meets it. */
  lemma QueryAt(oids: seq<Oid>, k: nat)
    requires k < |oids| && AllRepresentable(oids) && |Encoded(QueryTlvs(oids))| < TWO_32
    ensures VarbindAt(Encoded(QueryTlvs(oids)), |Encoded(QueryTlvs(oids)[..k])|)
         == Done(oids[k], |Encoded(QueryTlvs(oids)[..k + 1])|)
    ensures |Encoded(QueryTlvs(oids)[..k])| < |Encoded(QueryTlvs(oids))|
  {
    var elements := QueryTlvs(oids);
    SmallIsReadable(elements);
    ElementRead(elements, k);
    assert elements[k] == QueryTlv(oids[k]) && elements[k] in elements;
    QueryReads(oids[k]);
  }

  lemma {:induction false} QueriesRead(oids: seq<Oid>, k: nat)
    requires k <= |oids| && k <= MAX_VARBINDS && AllRepresentable(oids)
    requires |Encoded(QueryTlvs(oids))| < TWO_32
    ensures VarbindOids(Encoded(QueryTlvs(oids)), |Encoded(QueryTlvs(oids)[..k])|, k)
         == if |oids| <= MAX_VARBINDS then Some(oids[k..]) else None
    decreases |oids| - k
  {
    hide VarbindAt, Encoded, QueryTlv;
    var list, cursor := Encoded(QueryTlvs(oids)), |Encoded(QueryTlvs(oids)[..k])|;
    if k == |oids| {
      assert QueryTlvs(oids)[..k] == QueryTlvs(oids) && oids[k..] == [];
    } else {
      QueryAt(oids, k);
      VarbindOidsStep(list, cursor, k, oids[k], |Encoded(QueryTlvs(oids)[..k + 1])|);
      if k < MAX_VARBINDS {
        QueriesRead(oids, k + 1);
        HeadAndTail(oids, k);
      }
    }
  }

  lemma VarbindOidsStep(list: seq<Byte>, cursor: nat, seen: nat, oid: Oid, next: nat)
    requires seen <= MAX_VARBINDS && cursor < |list| && VarbindAt(list, cursor) == Done(oid, next)
    ensures VarbindOids(list, cursor, seen)
         == if seen >= MAX_VARBINDS then None
            else Prepended([oid], VarbindOids(list, next, seen + 1))
  {
  }

  /** The repetition count the parser keeps from a printed request. */
  function KeptRepetitions(tag: Byte, second: I64): nat {
    if tag != 0xa5 then 1 else if second < 0 then 0 else Min(second, 32)
  }

  /** A printed request parses back to its own fields, and is refused exactly when its varbind count is 0 or above 32. */
  lemma RequestRoundTrip(
    version: I64, community: seq<Byte>, tag: Byte, requestId: I64, first: I64, second: I64, oids: seq<Oid>)
    requires 0 <= version <= 1 && tag in {0xa0, 0xa1, 0xa5} && AllRepresentable(oids)
    requires |PrintedRequest(version, community, tag, requestId, first, second, oids)| < TWO_32
    ensures ParsedRequest(PrintedRequest(version, community, tag, requestId, first, second, oids))
         == if 1 <= |oids| <= 32
            then Some(Request(version, community, tag, requestId, KeptRepetitions(tag, second), oids))
            else None
  {
    hide ParsedRequest, ParsedPdu, Encoded, DecodedInteger, IntegerContent, QueryTlv, Representable, Accepted;
    var pdu := RequestPdu(requestId, first, second, oids);
    var body := RequestBody(version, community, tag, pdu);
    SmallIsReadable(body);
    assert body[2] in body;
    IntegerRoundTrip(version);
    EnvelopeReads(0x30, body, []);
    assert Wrapped(0x30, Encoded(body)) + [] == Wrapped(0x30, Encoded(body));
    PduRoundTrip(version, community, tag, requestId, first, second, oids);
  }

  /**
   Three elements in an envelope parse as a request of their own exactly when the envelope is a sequence with nothing
   after it and the three are an integer, 0 or 1, a string and one of the three operations.
   */
  lemma EnvelopeReads(tag: Byte, body: seq<Tlv>, extra: seq<Byte>)
    requires Readable(body) && |body| == 3 && |Encoded(body)| < TWO_32
    ensures ParsedRequest(Wrapped(tag, Encoded(body)) + extra)
         == if tag != 0x30 || extra != [] || body[0].tag != 0x02 || body[1].tag != 0x04
               || body[2].tag !in {0xa0, 0xa1, 0xa5} || DecodedInteger(body[0].value) !in {Some(0), Some(1)}
            then None
            else ParsedPdu(DecodedInteger(body[0].value).value, body[1].value, body[2])
  {
    hide LengthAt, LengthBytes, BigEndian, Encoded, DecodedInteger, ParsedPdu, Wrapped;
    var element := Wrapped(tag, Encoded(body));
    var message := element + extra;
    assert message[0..0 + |element|] == element;
    TlvRoundTrip(message, 0, tag, Encoded(body));
    ReadsInOrder(body);
  }

  lemma PduRoundTrip(
    version: I64, community: seq<Byte>, tag: Byte, requestId: I64, first: I64, second: I64, oids: seq<Oid>)
    requires RequestTag(tag) && AllRepresentable(oids)
    requires |Encoded(RequestPdu(requestId, first, second, oids))| < TWO_32
    ensures ParsedPdu(version, community, Tlv(tag, Encoded(RequestPdu(requestId, first, second, oids))))
         == if 1 <= |oids| <= MAX_VARBINDS
            then Some(Request(version, community, tag, requestId, KeptRepetitions(tag, second), oids))
            else None
  {
    var pdu := RequestPdu(requestId, first, second, oids);
    SmallIsReadable(pdu);
    assert pdu[3] in pdu;
    PduElementsRead(version, community, tag, pdu);
    IntegerRoundTrip(requestId);
    IntegerRoundTrip(second);
    QueriesRead(oids, 0);
    assert Encoded(QueryTlvs(oids)[..0]) == [] && oids[0..] == oids;
  }

  /** Four elements of an operation parse exactly when they are three integers and a list of varbinds that parse. */
  lemma PduElementsRead(version: int, community: seq<Byte>, tag: Byte, pdu: seq<Tlv>)
    requires Readable(pdu) && |pdu| == 4
    ensures ParsedPdu(version, community, Tlv(tag, Encoded(pdu)))
         == var repetitions, oids, id :=
              Repetitions(tag, pdu[2].value), VarbindOids(pdu[3].value, 0, 0), DecodedInteger(pdu[0].value);
            if pdu[0].tag != 0x02 || pdu[1].tag != 0x02 || pdu[2].tag != 0x02 || pdu[3].tag != 0x30
               || repetitions.None? || oids.None? || oids.value == [] || id.None? then None
            else Some(Request(version, community, tag, id.value, repetitions.value, oids.value))
  {
    hide TlvAt, Encoded, DecodedInteger, VarbindOids;
    ReadsInOrder(pdu);
  }

  /** A varbind of two elements gives its identifier exactly when it is a sequence that begins with one. */
  lemma VarbindOidReads(tag: Byte, first: Byte, oid: Oid, value: Tlv)
    requires Representable(oid) && |Encoded([Tlv(first, OidContent(oid)), value])| < TWO_32
    ensures VarbindOid(Tlv(tag, Encoded([Tlv(first, OidContent(oid)), value])))
         == if tag == 0x30 && first == 0x06 then Some(oid) else None
  {
    hide TlvAt, DecodedOid, OidContent;
    var pair := [Tlv(first, OidContent(oid)), value];
    SmallIsReadable(pair);
    ElementRead(pair, 0);
    ElementRead(pair, 1);
    assert Encoded(pair[..0]) == [];
    OidRoundTrip(oid);
  }

  // ---------------------------------------------------------------------------
  // Answering
  // ---------------------------------------------------------------------------

  /** The value sent for an identifier: system up-time is always the same ticks, whatever the table says. */
  function Answer(oid: Oid, text: Option<seq<Byte>>): (v: Varbind)
    ensures v.oid == oid
  {
    if oid == SYS_UPTIME then Varbind(oid, TimeTicks(360_000))
    else match text
      case Some(t) => Varbind(oid, Text(t))
      case None => Varbind(oid, Null)
  }

  function GetAnswer(values: seq<Entry>, oid: Oid): Varbind {
    Answer(oid, TextOf(values, oid))
  }

  function GetNextAnswer(values: seq<Entry>, oid: Oid): Varbind {
    match NextOf(values, oid)
    case Some(next) => Answer(next.oid, Some(next.text))
    case None => Answer(oid, None)
  }

  function SingleAnswer(tag: Byte, values: seq<Entry>, oid: Oid): Varbind {
    if tag == GET then GetAnswer(values, oid) else GetNextAnswer(values, oid)
  }

  /** The varbinds of the answer. GETBULK looks only at the first identifier. */
  function Answers(request: Request, values: seq<Entry>): seq<Varbind>
    requires |request.oids| > 0
  {
    if request.pduTag != GET_BULK then
      seq(|request.oids|, i requires 0 <= i < |request.oids| => SingleAnswer(request.pduTag, values, request.oids[i]))
    else
      WalkAnswers(Walk(values, request.oids[0], Rounds(request)))
  }

  function WalkAnswers(entries: seq<Entry>): (r: seq<Varbind>)
    ensures |r| == |entries|
  {
    seq(|entries|, i requires 0 <= i < |entries| => Answer(entries[i].oid, Some(entries[i].text)))
  }

  function ValueTlv(value: Value): Tlv {
    match value
    case TimeTicks(ticks) => Tlv(0x43, UnsignedContent(if ticks < 0 then 0 else ticks))
    case Text(text) => Tlv(0x04, text)
    case Null => Tlv(0x05, [])
  }

  function VarbindTlv(varbind: Varbind): Tlv
    requires Accepted(varbind.oid)
  {
    Tlv(0x30, Encoded([Tlv(0x06, OidContent(varbind.oid)), ValueTlv(varbind.value)]))
  }

  predicate Encodable(varbinds: seq<Varbind>) {
    forall i :: 0 <= i < |varbinds| ==> Accepted(varbinds[i].oid)
  }

  function VarbindTlvs(varbinds: seq<Varbind>): (r: seq<Tlv>)
    requires Encodable(varbinds)
    ensures |r| == |varbinds|
  {
    seq(|varbinds|, i requires 0 <= i < |varbinds| => VarbindTlv(varbinds[i]))
  }

  function ResponsePdu(requestId: I64, varbinds: seq<Varbind>): seq<Tlv>
    requires Encodable(varbinds)
  {
    [IntegerTlv(requestId), IntegerTlv(0), IntegerTlv(0), Tlv(0x30, Encoded(VarbindTlvs(varbinds)))]
  }

  function ResponseBody(version: I64, community: seq<Byte>, pdu: seq<Tlv>): seq<Tlv> {
    [IntegerTlv(version), Tlv(0x04, community), Tlv(0xa2, Encoded(pdu))]
  }

  function PrintedResponse(version: I64, community: seq<Byte>, requestId: I64, varbinds: seq<Varbind>): seq<Byte>
    requires Encodable(varbinds)
  {
    Wrapped(0x30, Encoded(ResponseBody(version, community, ResponsePdu(requestId, varbinds))))
  }

  lemma EncodedPair(a: Tlv, b: Tlv)
    ensures Encoded([a, b]) == Wrapped(a.tag, a.value) + Wrapped(b.tag, b.value)
  {
    assert [a, b][..1] == [a];
    EncodedSingle(a);
  }

  method EncodeVarbind(oid: Oid, text: Option<seq<Byte>>) returns (r: Option<seq<Byte>>)
    ensures r == if Accepted(oid) then Some(Wrapped(0x30, VarbindTlv(Answer(oid, text)).value)) else None
  {
    var encoded := EncodeOid(oid);
    if encoded.None? {
      return None;
    }
    var value: seq<Byte>;
    if oid == [1, 3, 6, 1, 2, 1, 1, 3, 0] {
      value := EncodeUnsigned(0x43, 360_000);
    } else if text.Some? {
      value := Wrap(0x04, text.value);
    } else {
      value := Wrap(0x05, []);
    }
    EncodedPair(Tlv(0x06, OidContent(oid)), ValueTlv(Answer(oid, text).value));
    var output := Wrap(0x30, encoded.value + value);
    return Some(output);
  }

  lemma NoVarbinds()
    ensures Encodable([]) && Encoded(VarbindTlvs([])) == []
  {
    assert VarbindTlvs([]) == [];
  }

  /** The varbind being added to an encoded list. */
  lemma AppendVarbind(varbinds: seq<Varbind>, v: Varbind)
    requires Encodable(varbinds) && Accepted(v.oid)
    ensures Encodable(varbinds + [v])
    ensures Encoded(VarbindTlvs(varbinds + [v])) == Encoded(VarbindTlvs(varbinds)) + Wrapped(0x30, VarbindTlv(v).value)
  {
    var more := varbinds + [v];
    assert VarbindTlvs(more)[..|varbinds|] == VarbindTlvs(varbinds);
  }

  method EncodeAnswer(tag: Byte, values: seq<Entry>, oid: Oid) returns (r: Option<seq<Byte>>)
    ensures var answer := SingleAnswer(tag, values, oid);
            r == if Accepted(answer.oid) then Some(Wrapped(0x30, VarbindTlv(answer).value)) else None
  {
    if tag == GET {
      r := EncodeVarbind(oid, TextOf(values, oid));
    } else {
      var next := NextValue(values, oid);
      if next.Some? {
        r := EncodeVarbind(next.value.oid, Some(next.value.text));
      } else {
        r := EncodeVarbind(oid, None);
      }
    }
  }

  /** Answers GET and GETNEXT: one varbind for each requested identifier, refused at the first one that cannot be encoded. */
  method EncodeAnswers(tag: Byte, oids: seq<Oid>, values: seq<Entry>, ghost answers: seq<Varbind>)
    returns (r: Option<seq<Byte>>)
    requires |answers| == |oids| && forall i :: 0 <= i < |oids| ==> answers[i] == SingleAnswer(tag, values, oids[i])
    ensures r.None? <==> !Encodable(answers)
    ensures r.Some? ==> r.value == Encoded(VarbindTlvs(answers))
  {
    hide SingleAnswer, Encoded, VarbindTlvs, Wrapped, VarbindTlv;
    var encoded: seq<Byte> := [];
    NoVarbinds();
    WholeSlice(answers);
    for i := 0 to |oids|
      invariant Encodable(answers[..i]) && encoded == Encoded(VarbindTlvs(answers[..i]))
    {
      var varbind := EncodeAnswer(tag, values, oids[i]);
      if varbind.None? {
        assert !Accepted(answers[i].oid);
        return None;
      }
      AppendVarbind(answers[..i], answers[i]);
      assert answers[..i + 1] == answers[..i] + [answers[i]];
      encoded := encoded + varbind.value;
    }
    return Some(encoded);
  }

  /** Answers GETBULK: the varbinds of a walk. */
  method EncodeWalk(entries: seq<Entry>) returns (r: Option<seq<Byte>>)
    ensures r.None? <==> !Encodable(WalkAnswers(entries))
    ensures r.Some? ==> r.value == Encoded(VarbindTlvs(WalkAnswers(entries)))
  {
    hide Encoded, VarbindTlvs, Wrapped, VarbindTlv, Answer;
    ghost var answers := WalkAnswers(entries);
    var encoded: seq<Byte> := [];
    NoVarbinds();
    WholeSlice(answers);
    for i := 0 to |entries|
      invariant Encodable(answers[..i]) && encoded == Encoded(VarbindTlvs(answers[..i]))
    {
      var varbind := EncodeVarbind(entries[i].oid, Some(entries[i].text));
      if varbind.None? {
        assert !Accepted(answers[i].oid);
        return None;
      }
      AppendVarbind(answers[..i], answers[i]);
      assert answers[..i + 1] == answers[..i] + [answers[i]];
      encoded := encoded + varbind.value;
    }
    return Some(encoded);
  }

  method BuildResponse(request: Request, values: seq<Entry>) returns (r: Option<seq<Byte>>)
    requires WellFormed(request)
    ensures r.None? <==> !Encodable(Answers(request, values))
    ensures r.Some? ==>
              r.value == PrintedResponse(request.version, request.community, request.requestId, Answers(request, values))
  {
    hide Encoded, Wrapped, IntegerContent, VarbindTlvs, SingleAnswer, Walk;
    var varbinds: Option<seq<Byte>>;
    if request.pduTag == GET_BULK {
      var found := Bulk(values, request.oids[0], Rounds(request));
      varbinds := EncodeWalk(found);
    } else {
      varbinds := EncodeAnswers(request.pduTag, request.oids, values, Answers(request, values));
    }
    if varbinds.None? {
      return None;
    }
    ghost var answers := Answers(request, values);
    var requestId := EncodeInteger(request.requestId);
    var zero := EncodeInteger(0);
    var list := Wrap(0x30, varbinds.value);
    var pdu := requestId + zero + zero + list;
    EncodedFour(ResponsePdu(request.requestId, answers));
    var version := EncodeInteger(request.version);
    var community := Wrap(0x04, request.community);
    var wrappedPdu := Wrap(0xa2, pdu);
    var message := version + community + wrappedPdu;
    EncodedThree(ResponseBody(request.version, request.community, ResponsePdu(request.requestId, answers)));
    var output := Wrap(0x30, message);
    return Some(output);
  }

  lemma EncodedThree(e: seq<Tlv>)
    requires |e| == 3
    ensures Encoded(e) == Wrapped(e[0].tag, e[0].value) + Wrapped(e[1].tag, e[1].value) + Wrapped(e[2].tag, e[2].value)
  {
    EncodedPair(e[0], e[1]);
    assert e[..2] == [e[0], e[1]];
  }

  lemma EncodedFour(e: seq<Tlv>)
    requires |e| == 4
    ensures Encoded(e) == Wrapped(e[0].tag, e[0].value) + Wrapped(e[1].tag, e[1].value)
                        + Wrapped(e[2].tag, e[2].value) + Wrapped(e[3].tag, e[3].value)
  {
    EncodedThree(e[..3]);
  }

  // ---------------------------------------------------------------------------
  // What a manager reads in the answer
  // ---------------------------------------------------------------------------

  function DecodedValue(e: Tlv): Option<Value> {
    if e.tag == 0x43 then
      match DecodedInteger(e.value) case None => None case Some(v) => Some(TimeTicks(v))
    else if e.tag == 0x04 then Some(Text(e.value))
    else if e.tag == 0x05 && e.value == [] then Some(Null)
    else None
  }

  function DecodedVarbind(e: Tlv): Option<Varbind> {
    if e.tag != 0x30 then None
    else match Decoded(e.value, 0)
      case None => None
      case Some(parts) =>
        if |parts| != 2 || parts[0].tag != 0x06 then None
        else
          var oid, value := DecodedOid(parts[0].value), DecodedValue(parts[1]);
          if oid.None? || value.None? then None else Some(Varbind(oid.value, value.value))
  }

  function DecodedVarbinds(elements: seq<Tlv>): Option<seq<Varbind>> {
    if elements == [] then Some([])
    else
      var first, rest := DecodedVarbind(elements[0]), DecodedVarbinds(elements[1..]);
      if first.None? || rest.None? then None else Some([first.value] + rest.value)
  }

  function DecodedPdu(version: int, community: seq<Byte>, pdu: seq<Tlv>): Option<Response> {
    if |pdu| != 4 || pdu[0].tag != 0x02 || pdu[1].tag != 0x02 || pdu[2].tag != 0x02 || pdu[3].tag != 0x30 then None
    else
      var id, status, index := DecodedInteger(pdu[0].value), DecodedInteger(pdu[1].value), DecodedInteger(pdu[2].value);
      if id.None? || status.None? || index.None? then None
      else match Decoded(pdu[3].value, 0)
        case None => None
        case Some(list) => match DecodedVarbinds(list)
          case None => None
          case Some(varbinds) =>
            Some(Response(version, community, id.value, status.value, index.value, varbinds))
  }

  /** A strict reader: every constructed element must be used up to its end. */
  function DecodedResponse(message: seq<Byte>): Option<Response> {
    match Decoded(message, 0)
    case None => None
    case Some(top) =>
      if |top| != 1 || top[0].tag != 0x30 then None
      else match Decoded(top[0].value, 0)
        case None => None
        case Some(body) =>
          if |body| != 3 || body[0].tag != 0x02 || body[1].tag != 0x04 || body[2].tag != 0xa2 then None
          else match DecodedInteger(body[0].value)
            case None => None
            case Some(version) => match Decoded(body[2].value, 0)
              case None => None
              case Some(pdu) => DecodedPdu(version, body[1].value, pdu)
  }

  predicate TicksFit(varbinds: seq<Varbind>) {
    forall i :: 0 <= i < |varbinds| && varbinds[i].value.TimeTicks? ==> 0 <= varbinds[i].value.ticks < TWO_63
  }

  /** Every identifier is one that `Ber.OidRoundTrip` returns. */
  predicate NamesReturn(varbinds: seq<Varbind>) {
    forall i :: 0 <= i < |varbinds| ==> Representable(varbinds[i].oid)
  }

  /** A printed varbind is read back exactly when its identifier is. */
  lemma VarbindReads(v: Varbind)
    requires Accepted(v.oid) && TicksFit([v]) && |VarbindTlv(v).value| < TWO_32
    ensures DecodedVarbind(VarbindTlv(v)) == Some(v) <==> Representable(v.oid)
  {
    hide TlvAt, Encoded, Wrapped, Decoded, OidContent, UnsignedContent, DecodedOid, Representable, Accepted;
    var parts := [Tlv(0x06, OidContent(v.oid)), ValueTlv(v.value)];
    SmallIsReadable(parts);
    ElementsRoundTrip(parts);
    OidRoundTrip(v.oid);
    if v.value.TimeTicks? {
      assert [v][0] == v;
      UnsignedRoundTrip(v.value.ticks);
    }
  }

  lemma VarbindTlvsTail(varbinds: seq<Varbind>)
    requires varbinds != [] && Encodable(varbinds)
    ensures VarbindTlvs(varbinds)[1..] == VarbindTlvs(varbinds[1..])
  {
  }

  lemma DecodedVarbindsStep(list: seq<Tlv>, first: Varbind, rest: seq<Varbind>)
    requires list != []
    ensures DecodedVarbinds(list) == Some([first] + rest)
       <==> DecodedVarbind(list[0]) == Some(first) && DecodedVarbinds(list[1..]) == Some(rest)
  {
    if DecodedVarbinds(list) == Some([first] + rest) {
      var read := DecodedVarbinds(list[1..]).value;
      assert [DecodedVarbind(list[0]).value] + read == [first] + rest;
      assert ([first] + rest)[1..] == rest && ([first] + rest)[0] == first;
    }
  }

  lemma {:induction false} VarbindsRead(varbinds: seq<Varbind>)
    requires Encodable(varbinds) && TicksFit(varbinds) && Readable(VarbindTlvs(varbinds))
    ensures DecodedVarbinds(VarbindTlvs(varbinds)) == Some(varbinds) <==> NamesReturn(varbinds)
  {
    hide VarbindTlv, DecodedVarbind, DecodedVarbinds, Representable, Accepted;
    var list := VarbindTlvs(varbinds);
    if varbinds == [] {
      NothingToRead(list);
    } else {
      assert list[0] in list;
      VarbindReads(varbinds[0]);
      VarbindTlvsTail(varbinds);
      assert Readable(list[1..]);
      VarbindsRead(varbinds[1..]);
      DecodedVarbindsStep(list, varbinds[0], varbinds[1..]);
      assert varbinds == [varbinds[0]] + varbinds[1..];
      NamesReturnStep(varbinds);
    }
  }

  lemma NothingToRead(list: seq<Tlv>)
    requires list == []
    ensures DecodedVarbinds(list) == Some([])
  {
  }

  lemma NamesReturnStep(varbinds: seq<Varbind>)
    requires varbinds != []
    ensures NamesReturn(varbinds) <==> Representable(varbinds[0].oid) && NamesReturn(varbinds[1..])
  {
    hide Representable;
    if NamesReturn(varbinds[1..]) {
      assert forall i :: 0 < i < |varbinds| ==> varbinds[i] == varbinds[1..][i - 1];
    }
  }

  lemma PduReads(version: int, community: seq<Byte>, requestId: I64, varbinds: seq<Varbind>)
    requires Encodable(varbinds) && TicksFit(varbinds)
    requires |Encoded(ResponsePdu(requestId, varbinds))| < TWO_32
    ensures var read := DecodedPdu(version, community, ResponsePdu(requestId, varbinds));
            read == Some(Response(version, community, requestId, 0, 0, varbinds)) <==> NamesReturn(varbinds)
  {
    hide Encoded, IntegerContent, VarbindTlv, DecodedVarbinds, Decoded, DecodedInteger, NamesReturn;
    var pdu := ResponsePdu(requestId, varbinds);
    SmallIsReadable(pdu);
    IntegerRoundTrip(requestId);
    IntegerRoundTrip(0);
    var list := VarbindTlvs(varbinds);
    assert pdu[3] in pdu;
    SmallIsReadable(list);
    ElementsRoundTrip(list);
    VarbindsRead(varbinds);
  }

  /**
   A printed answer is read back field by field exactly when its body is below 2^32 octets and every identifier is one
   that returns; a longer one is refused.
   */
  lemma ResponseReads(version: I64, community: seq<Byte>, requestId: I64, varbinds: seq<Varbind>)
    requires Encodable(varbinds) && TicksFit(varbinds)
    requires |PrintedResponse(version, community, requestId, varbinds)| < TWO_64
    ensures var short := |Encoded(ResponseBody(version, community, ResponsePdu(requestId, varbinds)))| < TWO_32;
            var read := DecodedResponse(PrintedResponse(version, community, requestId, varbinds));
            && (read == Some(Response(version, community, requestId, 0, 0, varbinds)) <==> short && NamesReturn(varbinds))
            && (!short ==> read == None)
  {
    hide TlvAt, Encoded, IntegerContent, DecodedPdu, VarbindTlvs, NamesReturn;
    var pdu := ResponsePdu(requestId, varbinds);
    var body := ResponseBody(version, community, pdu);
    var top := Tlv(0x30, Encoded(body));
    var message := Wrapped(0x30, Encoded(body));
    EncodedSingle(top);
    if |Encoded(body)| < TWO_32 {
      ElementsRoundTrip([top]);
      SmallIsReadable(body);
      ElementsRoundTrip(body);
      assert body[2] in body;
      SmallIsReadable(pdu);
      ElementsRoundTrip(pdu);
      IntegerRoundTrip(version);
      PduReads(version, community, requestId, varbinds);
    } else {
      WholeSlice(message);
      TlvRoundTrip(message, 0, 0x30, Encoded(body));
    }
  }

  predicate RepresentableTable(values: seq<Entry>) {
    forall e :: e in values ==> Representable(e.oid)
  }

  lemma AnswersReturn(request: Request, values: seq<Entry>)
    requires WellFormed(request)
    ensures TicksFit(Answers(request, values))
    ensures RepresentableTable(values) ==> NamesReturn(Answers(request, values))
  {
    if request.pduTag == GET_BULK {
      WalkStays(values, request.oids[0], Rounds(request));
    }
  }

  lemma {:induction false} WalkStays(values: seq<Entry>, oid: Oid, steps: nat)
    ensures forall e :: e in Walk(values, oid, steps) ==> e in values
    ensures |Walk(values, oid, steps)| <= steps
    decreases steps
  {
    if NextOf(values, oid).Some? && steps > 0 {
      WalkStays(values, NextOf(values, oid).value.oid, steps - 1);
    }
  }

  /**
   End to end, for every message and table. A request that parses and can be answered is read back by a manager as the
   same version, community and request id, no error, and exactly the chosen varbinds, exactly when every identifier
   answered returns; over a table of such identifiers every request that parses is answered so.
   */
  lemma EveryParsedRequestIsAnswered(message: seq<Byte>, values: seq<Entry>)
    ensures match ParsedRequest(message)
            case None => true
            case Some(request) =>
              && WellFormed(request)
              && (Encodable(Answers(request, values)) ==> ReadBackExactly(request, Answers(request, values)))
              && (RepresentableTable(values) ==>
                   Encodable(Answers(request, values)) && NamesReturn(Answers(request, values)))
  {
    hide ParsedRequest, DecodedResponse, Answers, Encoded, TlvAt, LengthBytes, Representable, TicksFit;
    ParsedRequestIsWellFormed(message);
    if ParsedRequest(message).Some? {
      var request := ParsedRequest(message).value;
      AnswersReturn(request, values);
      var answers := Answers(request, values);
      NamesThatReturnAreEncodable(answers);
      if Encodable(answers) && |PrintedResponse(request.version, request.community, request.requestId, answers)| < TWO_32 {
        ResponseReads(request.version, request.community, request.requestId, answers);
      }
    }
  }

  lemma NamesThatReturnAreEncodable(varbinds: seq<Varbind>)
    ensures NamesReturn(varbinds) ==> Encodable(varbinds)
  {
  }

  /** An answer below 2^32 octets is read back as the request's own fields, error fields 0, and the given varbinds. */
  predicate ReadBackExactly(request: Request, answers: seq<Varbind>)
    requires WellFormed(request) && Encodable(answers)
  {
    var answer := PrintedResponse(request.version, request.community, request.requestId, answers);
    |answer| < TWO_32 ==>
      (DecodedResponse(answer) == Some(Response(request.version, request.community, request.requestId, 0, 0, answers))
       <==> NamesReturn(answers))
  }

  function Rounds(request: Request): nat {
    if request.maxRepetitions > 1 then request.maxRepetitions else 1
  }

  /**
   GETBULK answers the first min(max(1, r), remaining) identifiers above the first one asked for, in table order
   and never more than 32; each varbind is the GETNEXT answer to the one before it.
   */
  lemma BulkIsPrefixOfWalk(request: Request, values: seq<Entry>)
    requires WellFormed(request) && request.pduTag == GET_BULK && Sorted(values)
    ensures var above := Above(values, request.oids[0]);
            Answers(request, values) == WalkAnswers(above[..Min(Rounds(request), |above|)])
    ensures |Answers(request, values)| <= 32
    ensures forall i, j :: 0 <= i < j < |Answers(request, values)| ==>
              Less(Answers(request, values)[i].oid, Answers(request, values)[j].oid)
  {
    WalkVisitsAllAbove(values, request.oids[0], Rounds(request));
    WalkStays(values, request.oids[0], Rounds(request));
  }

  lemma BulkStepsAreGetNext(request: Request, values: seq<Entry>, i: nat)
    requires WellFormed(request) && request.pduTag == GET_BULK && Sorted(values) && i < |Answers(request, values)|
    ensures Answers(request, values)[i]
         == GetNextAnswer(values, if i == 0 then request.oids[0] else Answers(request, values)[i - 1].oid)
  {
    WalkStep(values, request.oids[0], Rounds(request), i);
  }

  // ---------------------------------------------------------------------------
  // What a manager is told
  // ---------------------------------------------------------------------------

  /** The varbind tells a stored entry: its text, whatever it is, but always the same ticks for sysUpTime.0. */
  predicate TellsStored(v: Varbind, e: Entry) {
    v == Varbind(e.oid, if e.oid == [1, 3, 6, 1, 2, 1, 1, 3, 0] then TimeTicks(360_000) else Text(e.text))
  }

  predicate TellsNothing(v: Varbind, oid: Oid) {
    v == Varbind(oid, if oid == [1, 3, 6, 1, 2, 1, 1, 3, 0] then TimeTicks(360_000) else Null)
  }

  /** The answer to one identifier: the entry stored under it. */
  ghost predicate TellsTheEntry(values: seq<Entry>, oid: Oid, v: Varbind) {
    && (forall e :: e in values && e.oid == oid ==> TellsStored(v, e))
    && ((forall e :: e in values ==> e.oid != oid) ==> TellsNothing(v, oid))
  }

  /** The answer to one identifier: the least entry above it. */
  ghost predicate TellsTheNext(values: seq<Entry>, oid: Oid, v: Varbind) {
    && (forall e :: e in values && IsNext(values, oid, e) ==> TellsStored(v, e))
    && ((forall e :: e in values ==> !Less(oid, e.oid)) ==> TellsNothing(v, oid))
  }

  ghost predicate IsNext(values: seq<Entry>, oid: Oid, e: Entry) {
    Less(oid, e.oid) && forall other :: other in values && Less(oid, other.oid) ==> other == e || Less(e.oid, other.oid)
  }

  /** What the varbinds of an answer must be, from the table alone. */
  ghost predicate Told(request: Request, values: seq<Entry>, varbinds: seq<Varbind>)
    requires request.oids != []
  {
    if request.pduTag == 0xa0 then
      |varbinds| == |request.oids| && forall i :: 0 <= i < |varbinds| ==> TellsTheEntry(values, request.oids[i], varbinds[i])
    else if request.pduTag == 0xa1 then
      |varbinds| == |request.oids| && forall i :: 0 <= i < |varbinds| ==> TellsTheNext(values, request.oids[i], varbinds[i])
    else
      var above := Above(values, request.oids[0]);
      && |varbinds| == Min(if request.maxRepetitions == 0 then 1 else request.maxRepetitions, |above|)
      && forall i :: 0 <= i < |varbinds| ==> TellsStored(varbinds[i], above[i])
  }

  lemma EntryIsTold(values: seq<Entry>, oid: Oid)
    requires Sorted(values)
    ensures TellsTheEntry(values, oid, GetAnswer(values, oid))
  {
    forall e | e in values && e.oid == oid
      ensures TellsStored(GetAnswer(values, oid), e)
    {
      TextOfStored(values, e);
    }
  }

  /** GET answers each identifier with the text stored for it, and with null when there is none. */
  lemma GetReadsTheTable(request: Request, values: seq<Entry>, i: nat)
    requires WellFormed(request) && request.pduTag == 0xa0 && Sorted(values) && i < |request.oids|
    ensures |Answers(request, values)| == |request.oids|
    ensures TellsTheEntry(values, request.oids[i], Answers(request, values)[i])
  {
    hide TellsTheEntry;
    EntryIsTold(values, request.oids[i]);
  }

  lemma NextIsTold(values: seq<Entry>, oid: Oid)
    requires Sorted(values)
    ensures TellsTheNext(values, oid, GetNextAnswer(values, oid))
  {
    hide NextOf, Less;
    NextIsLeast(values, oid);
    forall e | e in values && IsNext(values, oid, e)
      ensures TellsStored(GetNextAnswer(values, oid), e)
    {
      var next := NextOf(values, oid).value;
      if next != e {
        OrderIsAntisymmetric(e.oid, next.oid);
      }
    }
  }

  lemma OrderIsAntisymmetric(a: Oid, b: Oid)
    ensures !(Less(a, b) && Less(b, a))
  {
    if Less(a, b) && Less(b, a) {
      LessIsTransitive(a, b, a);
      LessIsStrict(a);
    }
  }

  lemma AnswersAreTold(request: Request, values: seq<Entry>)
    requires WellFormed(request) && Sorted(values)
    ensures Told(request, values, Answers(request, values))
  {
    hide GetAnswer, GetNextAnswer, TellsTheEntry, TellsTheNext, Walk, Above, Less;
    var answers := Answers(request, values);
    if request.pduTag == GET_BULK {
      WalkVisitsAllAbove(values, request.oids[0], Rounds(request));
    } else {
      forall i | 0 <= i < |request.oids|
        ensures request.pduTag == 0xa0 ==> TellsTheEntry(values, request.oids[i], answers[i])
        ensures request.pduTag == 0xa1 ==> TellsTheNext(values, request.oids[i], answers[i])
      {
        EntryIsTold(values, request.oids[i]);
        NextIsTold(values, request.oids[i]);
      }
    }
  }

  /**
   End to end: what a manager reads from the answer to any request is the table's own entries. GET tells the entry of
   each identifier, GETNEXT the least one above it, GETBULK those above the first one; a text is told whole, a missing
   entry as null.
   */
  lemma ManagerIsToldTheTable(message: seq<Byte>, values: seq<Entry>)
    requires Sorted(values)
    ensures match ParsedRequest(message)
            case None => true
            case Some(request) =>
              && WellFormed(request)
              && (Encodable(Answers(request, values)) ==> ReadsTable(request, values, Answers(request, values)))
  {
    hide ParsedRequest, DecodedResponse, Answers, Encoded, TlvAt, LengthBytes, Representable, TicksFit, Told;
    EveryParsedRequestIsAnswered(message, values);
    if ParsedRequest(message).Some? {
      AnswersAreTold(ParsedRequest(message).value, values);
    }
  }

  ghost predicate ReadsTable(request: Request, values: seq<Entry>, answers: seq<Varbind>)
    requires WellFormed(request) && Encodable(answers)
  {
    var answer := PrintedResponse(request.version, request.community, request.requestId, answers);
    |answer| < TWO_32 && NamesReturn(answers) ==>
      DecodedResponse(answer).Some? && Told(request, values, DecodedResponse(answer).value.varbinds)
  }
}
