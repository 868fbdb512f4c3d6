/**
 DNS: names as length-prefixed labels, one question per query, and the reply built on it. `utf8` says which labels are
 text, `find` which address the records give for a name, `lower` lowers ASCII letters and trims final dots.
 */
module Dns {
  import opened Wrappers
  import opened Bytes
  import opened Sequences

  const HEADER_SIZE: nat := 12

  // ---------------------------------------------------------------------------
  // Names (section 3.1 of RFC 1035)
  // ---------------------------------------------------------------------------

  /** The labels of the name at an offset, and the offset after its final zero. */
  function NameAt(message: seq<Byte>, at: nat, utf8: Text -> bool): (r: Read<seq<Text>>)
    ensures r.Done? ==> at < r.next <= |message|
    decreases |message| - at
  {
    if at >= |message| then Fail
    else
      var length := message[at];
      if length == 0 then Done([], at + 1)
      else if length > 63 || at + 1 + length > |message| || !utf8(message[at + 1..at + 1 + length]) then Fail
      else
        match NameAt(message, at + 1 + length, utf8)
        case Fail => Fail
        case Done(labels, next) => Done([message[at + 1..at + 1 + length]] + labels, next)
  }

  method DecodeName(message: seq<Byte>, start: nat, utf8: Text -> bool) returns (r: Read<seq<Text>>)
    ensures r == NameAt(message, start, utf8)
  {
    var offset, labels := start, [];
    PrependNothing(NameAt(message, start, utf8));
    while true
      invariant NameAt(message, start, utf8) == Prepended(labels, NameAt(message, offset, utf8))
      decreases |message| - offset
    {
      if offset >= |message| {
        return Fail;
      }
      var length := message[offset];
      offset := offset + 1;
      if length == 0 {
        assert labels + [] == labels;
        return Done(labels, offset);
      }
      if length > 63 || offset + length > |message| {
        return Fail;
      }
      var part := message[offset..offset + length];
      if !utf8(part) {
        return Fail;
      }
      PrependMore(labels, part, NameAt(message, offset + length, utf8));
      labels := labels + [part];
      offset := offset + length;
    }
  }

  function Prepended(labels: seq<Text>, r: Read<seq<Text>>): Read<seq<Text>> {
    match r
    case Fail => Fail
    case Done(rest, next) => Done(labels + rest, next)
  }

  lemma PrependNothing(r: Read<seq<Text>>)
    ensures Prepended([], r) == r
  {
    if r.Done? {
      assert [] + r.value == r.value;
    }
  }

  lemma PrependMore(labels: seq<Text>, part: Text, r: Read<seq<Text>>)
    ensures Prepended(labels, Prepended([part], r)) == Prepended(labels + [part], r)
    ensures labels + [] == labels
  {
    if r.Done? {
      Associative(labels, [part], r.value);
    }
  }

  function EncodedName(labels: seq<Text>): seq<Byte> {
    if labels == [] then [0] else [|labels[0]| % 0x100] + labels[0] + EncodedName(labels[1..])
  }

  predicate IsLabel(text: Text, utf8: Text -> bool) {
    1 <= |text| <= 63 && utf8(text)
  }

  lemma NameRegroup(before: seq<Byte>, first: Text, tail: seq<Byte>, rest: seq<Byte>)
    requires |first| < 0x100
    ensures var message := before + (([|first|] + first + tail) + rest);
            && message == (before + [|first|] + first) + (tail + rest)
            && message[|before|] == |first| && message[|before| + 1..|before| + 1 + |first|] == first
  {
  }

  lemma NameStep(message: seq<Byte>, at: nat, first: Text, utf8: Text -> bool)
    requires IsLabel(first, utf8) && at + 1 + |first| <= |message|
    requires message[at] == |first| && message[at + 1..at + 1 + |first|] == first
    ensures NameAt(message, at, utf8) == Prepended([first], NameAt(message, at + 1 + |first|, utf8))
  {
  }

  lemma NameStepIn(before: seq<Byte>, first: Text, tail: seq<Byte>, rest: seq<Byte>, utf8: Text -> bool)
    requires IsLabel(first, utf8)
    ensures NameAt(before + (([|first|] + first + tail) + rest), |before|, utf8)
         == Prepended([first], NameAt((before + [|first|] + first) + (tail + rest), |before| + 1 + |first|, utf8))
  {
    hide NameAt, Prepended;
    NameRegroup(before, first, tail, rest);
    NameStep((before + [|first|] + first) + (tail + rest), |before|, first, utf8);
  }

  lemma EncodedStep(labels: seq<Text>)
    requires labels != [] && |labels[0]| < 0x100
    ensures EncodedName(labels) == [|labels[0]|] + labels[0] + EncodedName(labels[1..])
  {
  }

  /** Printed labels read back, at any offset and whatever follows. */
  lemma {:induction false} NameRoundTrip(before: seq<Byte>, labels: seq<Text>, rest: seq<Byte>, utf8: Text -> bool)
    requires forall l :: l in labels ==> IsLabel(l, utf8)
    ensures NameAt(before + (EncodedName(labels) + rest), |before|, utf8) == Done(labels, |before| + |EncodedName(labels)|)
    decreases |labels|
  {
    if labels == [] {
      assert (before + (EncodedName(labels) + rest))[|before|] == 0;
    } else {
      hide NameAt, EncodedName;
      var first, tail := labels[0], labels[1..];
      assert IsLabel(first, utf8);
      forall l | l in tail
        ensures IsLabel(l, utf8)
      {
        assert l in labels;
      }
      NameRoundTrip(before + [|first|] + first, tail, rest, utf8);
      EncodedStep(labels);
      NameStepIn(before, first, EncodedName(tail), rest, utf8);
      assert labels == [first] + tail;
    }
  }

  /** What reads as a name is the print of its labels, each of 1 to 63 bytes. */
  lemma {:induction false} NameIsPrinted(message: seq<Byte>, at: nat, utf8: Text -> bool)
    requires NameAt(message, at, utf8).Done?
    ensures message[at..NameAt(message, at, utf8).next] == EncodedName(NameAt(message, at, utf8).value)
    ensures forall l :: l in NameAt(message, at, utf8).value ==> IsLabel(l, utf8)
    decreases |message| - at
  {
    var length := message[at];
    if length == 0 {
      assert message[at..at + 1] == [0];
    } else {
      hide EncodedName;
      var r := NameAt(message, at + 1 + length, utf8);
      var first := message[at + 1..at + 1 + length];
      NameIsPrinted(message, at + 1 + length, utf8);
      CutLabel(message, at, length, r.next);
      assert ([first] + r.value)[1..] == r.value;
      EncodedStep([first] + r.value);
    }
  }

  lemma CutLabel(message: seq<Byte>, at: nat, length: nat, end: nat)
    requires at + 1 + length <= end <= |message| && length < 0x100 && message[at] == length
    ensures message[at..end] == [length] + message[at + 1..at + 1 + length] + message[at + 1 + length..end]
  {
  }

  // ---------------------------------------------------------------------------
  // Replies
  // ---------------------------------------------------------------------------

  type Address = bytes: seq<Byte> | |bytes| == 4 witness [0, 0, 0, 0]

  datatype Config = Config(find: seq<Text> -> Option<Address>, ttl: Option<U32>)

  datatype Question = Question(labels: seq<Text>, qtype: nat, qclass: nat, end: nat)

  /** The one question of a query, or nothing when the query is malformed. */
  function QuestionOf(query: seq<Byte>, utf8: Text -> bool): (r: Option<Question>)
    ensures r.Some? ==> HEADER_SIZE + 5 <= r.value.end <= |query|
  {
    if |query| < HEADER_SIZE || BigEndian(query[4..6]) != 1 then None
    else
      match NameAt(query, HEADER_SIZE, utf8)
      case Fail => None
      case Done(labels, next) =>
        if next + 4 > |query| then None
        else Some(Question(labels, BigEndian(query[next..next + 2]), BigEndian(query[next + 2..next + 4]), next + 4))
  }

  predicate HasAnswer(q: Question, config: Config) {
    q.qtype == 1 && q.qclass == 1 && config.find(q.labels).Some?
  }

  /** The answer record: a pointer to the question's name, type and class, the time to live, four address bytes. */
  function AnswerRecord(config: Config, address: Address): seq<Byte> {
    [0xc0, 0x0c] + ToBigEndian(1, 2) + ToBigEndian(1, 2)
    + ToBigEndian(Ttl(config), 4) + ToBigEndian(4, 2) + address
  }

  function ReplyHeader(query: seq<Byte>, known: bool, answered: bool): seq<Byte>
    requires |query| >= 2
  {
    query[..2] + (if known then [0x81, 0x80] else [0x81, 0x83]) + ToBigEndian(1, 2)
    + ToBigEndian(if answered then 1 else 0, 2) + ToBigEndian(0, 2) + ToBigEndian(0, 2)
  }

  function Reply(query: seq<Byte>, config: Config, utf8: Text -> bool): Option<seq<Byte>> {
    match QuestionOf(query, utf8)
    case None => None
    case Some(q) =>
      var address := config.find(q.labels);
      var answered := HasAnswer(q, config);
      Some(ReplyHeader(query, address.Some?, answered) + query[HEADER_SIZE..q.end]
           + (if answered then AnswerRecord(config, address.value) else []))
  }

  method BuildResponse(query: seq<Byte>, config: Config, utf8: Text -> bool) returns (r: Option<seq<Byte>>)
    ensures r == Reply(query, config, utf8)
  {
    hide NameAt, BigEndian, ToBigEndian;
    if |query| < HEADER_SIZE {
      return None;
    }
    if BigEndian(query[4..6]) != 1 {
      return None;
    }
    var name := DecodeName(query, HEADER_SIZE, utf8);
    if name.Fail? || name.next + 4 > |query| {
      return None;
    }
    var questionEnd := name.next + 4;
    var qtype, qclass := BigEndian(query[name.next..name.next + 2]), BigEndian(query[name.next + 2..questionEnd]);
    var address := config.find(name.value);
    var answered := qtype == 1 && qclass == 1 && address.Some?;
    var response := query[..2];
    response := response + if address.Some? then [0x81, 0x80] else [0x81, 0x83];
    response := response + ToBigEndian(1, 2);
    response := response + ToBigEndian(if answered then 1 else 0, 2);
    response := response + ToBigEndian(0, 2);
    response := response + ToBigEndian(0, 2);
    response := response + query[HEADER_SIZE..questionEnd];
    if answered {
      response := response + AnswerRecord(config, address.value);
    } else {
      assert response + [] == response;
    }
    return Some(response);
  }

  // ---------------------------------------------------------------------------
  // Reading a reply
  // ---------------------------------------------------------------------------

  /** The labels at an offset that holds either a name or a pointer to one (section 4.1.4 of RFC 1035). */
  function NameOrPointerAt(message: seq<Byte>, at: nat, utf8: Text -> bool): Read<seq<Text>> {
    if at + 2 <= |message| && message[at] >= 0xc0 then
      var high: nat, low: nat := message[at], message[at + 1];
      match NameAt(message, (high - 0xc0) * 256 + low, utf8)
      case Fail => Fail
      case Done(labels, _) => Done(labels, at + 2)
    else NameAt(message, at, utf8)
  }

  datatype Record = Record(labels: seq<Text>, rtype: nat, rclass: nat, ttl: nat, data: seq<Byte>)

  function RecordAt(message: seq<Byte>, at: nat, utf8: Text -> bool): Read<Record> {
    match NameOrPointerAt(message, at, utf8)
    case Fail => Fail
    case Done(labels, next) =>
      if next + 10 > |message| || next + 10 + BigEndian(message[next + 8..next + 10]) > |message| then Fail
      else
        var end := next + 10 + BigEndian(message[next + 8..next + 10]);
        Done(Record(labels, BigEndian(message[next..next + 2]), BigEndian(message[next + 2..next + 4]),
                    BigEndian(message[next + 4..next + 8]), message[next + 10..end]), end)
  }

  /** The answer records of a reply, read up to the count its header gives. */
  function RecordsAt(message: seq<Byte>, at: nat, count: nat, utf8: Text -> bool): Read<seq<Record>>
    decreases count
  {
    if count == 0 then Done([], at)
    else
      match RecordAt(message, at, utf8)
      case Fail => Fail
      case Done(first, next) =>
        match RecordsAt(message, next, count - 1, utf8)
        case Fail => Fail
        case Done(rest, end) => Done([first] + rest, end)
  }

  function Word(message: seq<Byte>, at: nat): nat
    requires at + 2 <= |message|
  {
    BigEndian(message[at..at + 2])
  }

  lemma SmallBigEndian(n: nat)
    requires n < 0x1_0000
    ensures BigEndian(ToBigEndian(n, 2)) == n
  {
    Pow256Values();
    BigEndianRoundTrip(n, 2);
  }

  lemma LargeBigEndian(n: U32)
    ensures BigEndian(ToBigEndian(n, 4)) == n
  {
    Pow256Values();
    BigEndianRoundTrip(n, 4);
  }

  /** The twelve header bytes as the reply lays them out. */
  lemma HeaderReads(query: seq<Byte>, known: bool, answered: bool, body: seq<Byte>)
    requires |query| >= 2
    ensures var reply := ReplyHeader(query, known, answered) + body;
            && |ReplyHeader(query, known, answered)| == HEADER_SIZE
            && reply[..2] == query[..2] && Word(reply, 4) == 1 && Word(reply, 6) == (if answered then 1 else 0)
            && Word(reply, 8) == 0 && Word(reply, 10) == 0
            && reply[2] == 0x81 && reply[3] == if known then 0x80 else 0x83
  {
    hide BigEndian, ToBigEndian, Pow256;
    SmallBigEndian(0);
    SmallBigEndian(1);
    var reply := ReplyHeader(query, known, answered) + body;
    assert reply[4..6] == ToBigEndian(1, 2);
    assert reply[6..8] == ToBigEndian(if answered then 1 else 0, 2);
    assert reply[8..10] == ToBigEndian(0, 2) && reply[10..12] == ToBigEndian(0, 2);
  }

  /** A name reads the same from any message that agrees up to its end. */
  lemma {:induction false} NameAtAgrees(a: seq<Byte>, b: seq<Byte>, at: nat, utf8: Text -> bool)
    requires NameAt(a, at, utf8).Done? && NameAt(a, at, utf8).next <= |b|
    requires forall i :: at <= i < NameAt(a, at, utf8).next ==> a[i] == b[i]
    ensures NameAt(b, at, utf8) == NameAt(a, at, utf8)
    decreases |a| - at
  {
    var length := a[at];
    assert b[at] == a[at];
    if length != 0 {
      assert b[at + 1..at + 1 + length] == a[at + 1..at + 1 + length];
      NameAtAgrees(a, b, at + 1 + length, utf8);
    }
  }

  /** The reply, from offset 12 on, reads as the query's question. */
  lemma QuestionComesBack(query: seq<Byte>, q: Question, header: seq<Byte>, tail: seq<Byte>, utf8: Text -> bool)
    requires QuestionOf(query, utf8) == Some(q) && |header| == HEADER_SIZE
    requires var reply := header + query[HEADER_SIZE..q.end] + tail; Word(reply, 4) == 1
    ensures QuestionOf(header + query[HEADER_SIZE..q.end] + tail, utf8) == Some(q)
    ensures NameAt(header + query[HEADER_SIZE..q.end] + tail, HEADER_SIZE, utf8) == Done(q.labels, q.end - 4)
  {
    hide BigEndian, NameAt;
    var reply := header + query[HEADER_SIZE..q.end] + tail;
    assert forall i :: HEADER_SIZE <= i < q.end ==> reply[i] == query[i];
    NameAtAgrees(query, reply, HEADER_SIZE, utf8);
    assert reply[q.end - 4..q.end - 2] == query[q.end - 4..q.end - 2];
    assert reply[q.end - 2..q.end] == query[q.end - 2..q.end];
  }

  function Ttl(config: Config): U32 {
    if config.ttl.Some? then config.ttl.value else 60
  }

  lemma AnswerParts(config: Config, address: Address)
    ensures var record := AnswerRecord(config, address);
            && |record| == 16 && record[0] == 0xc0 && record[1] == 0x0c
            && record[2..4] == ToBigEndian(1, 2) && record[4..6] == ToBigEndian(1, 2)
            && record[6..10] == ToBigEndian(Ttl(config), 4) && record[10..12] == ToBigEndian(4, 2) && record[12..16] == address
  {
    hide ToBigEndian;
  }

  lemma AnswerNumbers(config: Config, address: Address)
    ensures var record := AnswerRecord(config, address);
            && |record| == 16 && BigEndian(record[2..4]) == 1 && BigEndian(record[4..6]) == 1
            && BigEndian(record[6..10]) == Ttl(config) && BigEndian(record[10..12]) == 4
  {
    hide BigEndian, ToBigEndian, AnswerRecord, Ttl;
    AnswerParts(config, address);
    SmallBigEndian(1);
    SmallBigEndian(4);
    LargeBigEndian(Ttl(config));
  }

  predicate EndsWith(message: seq<Byte>, at: nat, record: seq<Byte>) {
    |message| == at + |record| && message[at..] == record
  }

  lemma NumberInPlace(message: seq<Byte>, at: nat, record: seq<Byte>, i: nat, j: nat)
    requires EndsWith(message, at, record) && i <= j <= |record|
    ensures |message| == at + |record| && BigEndian(message[at + i..at + j]) == BigEndian(record[i..j])
  {
    hide BigEndian;
    SubSlice(message, at, record, i, j);
  }

  lemma EndsInPlace(message: seq<Byte>, at: nat, config: Config, address: Address)
    requires EndsWith(message, at, AnswerRecord(config, address))
    ensures |message| == at + 16 && message[at] == 0xc0 && message[at + 1] == 0x0c && message[at + 12..at + 16] == address
  {
    hide AnswerRecord;
    AnswerParts(config, address);
    var record := AnswerRecord(config, address);
    assert message[at] == record[0] && message[at + 1] == record[1];
    assert message[at + 12..at + 16] == record[12..16];
  }

  lemma PointerReads(message: seq<Byte>, at: nat, labels: seq<Text>, end: nat, utf8: Text -> bool)
    requires at + 2 <= |message| && message[at] == 0xc0 && message[at + 1] == 0x0c
    requires NameAt(message, HEADER_SIZE, utf8) == Done(labels, end)
    ensures NameOrPointerAt(message, at, utf8) == Done(labels, at + 2)
  {
    hide NameAt;
  }

  lemma RecordReads(message: seq<Byte>, at: nat, labels: seq<Text>, next: nat, ttl: nat, data: seq<Byte>, utf8: Text -> bool)
    requires NameOrPointerAt(message, at, utf8) == Done(labels, next) && |message| == next + 10 + |data|
    requires BigEndian(message[next..next + 2]) == 1 && BigEndian(message[next + 2..next + 4]) == 1
    requires BigEndian(message[next + 4..next + 8]) == ttl && BigEndian(message[next + 8..next + 10]) == |data|
    requires message[next + 10..next + 10 + |data|] == data
    ensures RecordAt(message, at, utf8) == Done(Record(labels, 1, 1, ttl, data), |message|)
  {
    hide BigEndian, NameOrPointerAt;
  }

  lemma AnswerAt(message: seq<Byte>, at: nat, labels: seq<Text>, end: nat, ttl: nat, data: seq<Byte>, utf8: Text -> bool)
    requires |message| == at + 16 && message[at] == 0xc0 && message[at + 1] == 0x0c && message[at + 12..at + 16] == data
    requires NameAt(message, HEADER_SIZE, utf8) == Done(labels, end)
    requires BigEndian(message[at + 2..at + 4]) == 1 && BigEndian(message[at + 4..at + 6]) == 1
    requires BigEndian(message[at + 6..at + 10]) == ttl && BigEndian(message[at + 10..at + 12]) == 4
    ensures RecordAt(message, at, utf8) == Done(Record(labels, 1, 1, ttl, data), at + 16)
  {
    hide BigEndian, NameAt, NameOrPointerAt, RecordAt;
    PointerReads(message, at, labels, end, utf8);
    RecordReads(message, at, labels, at + 2, ttl, data, utf8);
  }

  lemma AnswerReads(message: seq<Byte>, at: nat, config: Config, address: Address, labels: seq<Text>, end: nat, utf8: Text -> bool)
    requires EndsWith(message, at, AnswerRecord(config, address))
    requires NameAt(message, HEADER_SIZE, utf8) == Done(labels, end)
    ensures RecordAt(message, at, utf8) == Done(Record(labels, 1, 1, Ttl(config), address), at + 16)
    ensures |message| == at + 16
  {
    hide BigEndian, NameAt, RecordAt, AnswerRecord, Ttl, EndsWith;
    var record := AnswerRecord(config, address);
    AnswerNumbers(config, address);
    NumberInPlace(message, at, record, 2, 4);
    NumberInPlace(message, at, record, 4, 6);
    NumberInPlace(message, at, record, 6, 10);
    NumberInPlace(message, at, record, 10, 12);
    EndsInPlace(message, at, config, address);
    AnswerAt(message, at, labels, end, Ttl(config), address, utf8);
  }

  /**
   Every accepted query is answered by a message with its id and question in which the header's answer count is the
   number of records present, and the one record, when there is one, carries the question's own name.
   */
  lemma ReplyReads(query: seq<Byte>, config: Config, utf8: Text -> bool)
    requires QuestionOf(query, utf8).Some?
    ensures var q, reply := QuestionOf(query, utf8).value, Reply(query, config, utf8).value;
            && reply[..2] == query[..2]
            && QuestionOf(reply, utf8) == Some(q)
            && Word(reply, 6) == (if HasAnswer(q, config) then 1 else 0)
            && Word(reply, 8) == 0 && Word(reply, 10) == 0
            && (reply[3] == 0x83 <==> config.find(q.labels).None?)
            && RecordsAt(reply, q.end, Word(reply, 6), utf8) == Done(ExpectedRecords(q, config), |reply|)
  {
    hide BigEndian, ToBigEndian, NameAt, ReplyHeader, AnswerRecord, RecordAt, QuestionOf;
    var q, reply := QuestionOf(query, utf8).value, Reply(query, config, utf8).value;
    var address, answered := config.find(q.labels), HasAnswer(q, config);
    var header, question := ReplyHeader(query, address.Some?, answered), query[HEADER_SIZE..q.end];
    var tail := if answered then AnswerRecord(config, address.value) else [];
    QuestionIsLong(query, utf8);
    HeaderReads(query, address.Some?, answered, question + tail);
    Associative(header, question, tail);
    assert reply == header + question + tail && reply == header + (question + tail);
    QuestionComesBack(query, q, header, tail, utf8);
    if answered {
      assert EndsWith(reply, q.end, AnswerRecord(config, address.value));
      AnswerReads(reply, q.end, config, address.value, q.labels, q.end - 4, utf8);
      OneRecord(reply, q.end, utf8);
    }
  }

  /** A query: id and flags, the question count, the other three counts, one printed question, and what follows it. */
  function PrintedQuery(
    id: seq<Byte>, flags: seq<Byte>, count: nat, counts: seq<Byte>, labels: seq<Text>, qtype: nat, qclass: nat, rest: seq<Byte>): seq<Byte>
  {
    id + flags + ToBigEndian(count, 2) + counts + (EncodedName(labels) + (ToBigEndian(qtype, 2) + ToBigEndian(qclass, 2) + rest))
  }

  lemma QuestionReads(
    id: seq<Byte>, flags: seq<Byte>, count: nat, counts: seq<Byte>, labels: seq<Text>, qtype: nat, qclass: nat, rest: seq<Byte>, utf8: Text -> bool)
    requires |id| == 2 && |flags| == 2 && |counts| == 6 && count < 0x1_0000 && qtype < 0x1_0000 && qclass < 0x1_0000
    requires forall l :: l in labels ==> IsLabel(l, utf8)
    ensures QuestionOf(PrintedQuery(id, flags, count, counts, labels, qtype, qclass, rest), utf8)
         == if count == 1 then Some(Question(labels, qtype, qclass, 12 + |EncodedName(labels)| + 4)) else None
  {
    hide BigEndian, ToBigEndian, NameAt, EncodedName, Pow256;
    SmallBigEndian(count);
    SmallBigEndian(qtype);
    SmallBigEndian(qclass);
    var header := id + flags + ToBigEndian(count, 2) + counts;
    var numbers := ToBigEndian(qtype, 2) + ToBigEndian(qclass, 2) + rest;
    var query := header + (EncodedName(labels) + numbers);
    NameRoundTrip(header, labels, numbers, utf8);
    assert query[4..6] == ToBigEndian(count, 2);
    var next := 12 + |EncodedName(labels)|;
    assert query[next..] == numbers;
    assert query[next..next + 2] == numbers[..2] && query[next + 2..next + 4] == numbers[2..4];
    assert numbers[..2] == ToBigEndian(qtype, 2) && numbers[2..4] == ToBigEndian(qclass, 2);
  }

  /**
   From a printed query to what a resolver reads: a query is answered exactly when it has one question. The answer
   carries its id and question; the one record with the configured address and time to live, 60 by default, is there
   exactly for an address question (type and class 1) of a name that the configuration knows; an unknown name is said to
   be so, whatever the type.
   */
  lemma QueryIsAnswered(
    id: seq<Byte>, flags: seq<Byte>, count: nat, counts: seq<Byte>, labels: seq<Text>, qtype: nat, qclass: nat, rest: seq<Byte>,
    config: Config, utf8: Text -> bool)
    requires |id| == 2 && |flags| == 2 && |counts| == 6 && count < 0x1_0000 && qtype < 0x1_0000 && qclass < 0x1_0000
    requires forall l :: l in labels ==> IsLabel(l, utf8)
    ensures var r := Reply(PrintedQuery(id, flags, count, counts, labels, qtype, qclass, rest), config, utf8);
            && (r.Some? <==> count == 1)
            && (r.Some? ==> AnswersQuery(r.value, id, labels, qtype, qclass, config, utf8))
  {
    hide QuestionOf, PrintedQuery, NameAt, EncodedName, ReplyHeader, AnswerRecord, RecordsAt, Word;
    QuestionReads(id, flags, count, counts, labels, qtype, qclass, rest, utf8);
    var query := PrintedQuery(id, flags, count, counts, labels, qtype, qclass, rest);
    IdComesFirst(id, flags, count, counts, labels, qtype, qclass, rest);
    if count == 1 {
      ReplyReads(query, config, utf8);
      FlagsAreSet(query, config, utf8);
    }
  }

  predicate AnswersQuery(reply: seq<Byte>, id: seq<Byte>, labels: seq<Text>, qtype: nat, qclass: nat, config: Config, utf8: Text -> bool) {
    var end, known := 12 + |EncodedName(labels)| + 4, config.find(labels).Some?;
    && |reply| >= 12 && reply[..2] == id
    && reply[2] == 0x81 && reply[3] == (if known then 0x80 else 0x83)
    && QuestionOf(reply, utf8) == Some(Question(labels, qtype, qclass, end))
    && Word(reply, 8) == 0 && Word(reply, 10) == 0
    && if known && qtype == 1 && qclass == 1 then
         && Word(reply, 6) == 1
         && RecordsAt(reply, end, 1, utf8)
         == Done([Record(labels, 1, 1, if config.ttl.Some? then config.ttl.value else 60, config.find(labels).value)], |reply|)
       else Word(reply, 6) == 0 && |reply| == end
  }

  lemma IdComesFirst(
    id: seq<Byte>, flags: seq<Byte>, count: nat, counts: seq<Byte>, labels: seq<Text>, qtype: nat, qclass: nat, rest: seq<Byte>)
    requires |id| == 2
    ensures |PrintedQuery(id, flags, count, counts, labels, qtype, qclass, rest)| >= 2
    ensures PrintedQuery(id, flags, count, counts, labels, qtype, qclass, rest)[..2] == id
  {
    hide EncodedName, ToBigEndian;
  }

  lemma FlagsAreSet(query: seq<Byte>, config: Config, utf8: Text -> bool)
    requires QuestionOf(query, utf8).Some?
    ensures var q, reply := QuestionOf(query, utf8).value, Reply(query, config, utf8).value;
            && |reply| >= 12 && reply[2] == 0x81 && reply[3] == (if config.find(q.labels).Some? then 0x80 else 0x83)
            && (!HasAnswer(q, config) ==> |reply| == q.end)
  {
    hide QuestionOf, AnswerRecord, NameAt, Word, BigEndian, ToBigEndian;
    QuestionIsLong(query, utf8);
    HeaderReads(query, config.find(QuestionOf(query, utf8).value.labels).Some?, HasAnswer(QuestionOf(query, utf8).value, config), []);
  }

  lemma QuestionIsLong(query: seq<Byte>, utf8: Text -> bool)
    requires QuestionOf(query, utf8).Some?
    ensures |query| >= HEADER_SIZE
  {
  }

  lemma OneRecord(message: seq<Byte>, at: nat, utf8: Text -> bool)
    requires RecordAt(message, at, utf8).Done?
    ensures RecordsAt(message, at, 1, utf8) == Done([RecordAt(message, at, utf8).value], RecordAt(message, at, utf8).next)
  {
    hide RecordAt;
    var r := RecordAt(message, at, utf8);
    assert RecordsAt(message, r.next, 0, utf8) == Done([], r.next);
    assert [r.value] + [] == [r.value];
  }

  function ExpectedRecords(q: Question, config: Config): seq<Record> {
    if HasAnswer(q, config)
    then [Record(q.labels, 1, 1, Ttl(config), config.find(q.labels).value)]
    else []
  }

  /** A reply is at most 16 bytes longer than its query, so over TCP its length always fits 16 bits. */
  lemma ReplyFits(query: seq<Byte>, config: Config, utf8: Text -> bool)
    requires QuestionOf(query, utf8).Some?
    ensures |Reply(query, config, utf8).value| <= |query| + 16
    ensures |query| <= 4096 ==> |Reply(query, config, utf8).value| < 0x1_0000
  {
    hide QuestionOf, ReplyHeader, AnswerRecord;
    var q := QuestionOf(query, utf8).value;
    QuestionIsLong(query, utf8);
    HeaderReads(query, config.find(q.labels).Some?, HasAnswer(q, config), []);
    if HasAnswer(q, config) {
      AnswerParts(config, config.find(q.labels).value);
    }
  }

  // ---------------------------------------------------------------------------
  // The reported payload
  // ---------------------------------------------------------------------------

  const MAX_PAYLOAD_HEX: nat := 8192

  function HexDigit(n: nat): char
    requires n < 16
  {
    if n < 10 then '0' + n as char else 'a' + (n - 10) as char
  }

  function HexOf(bytes: seq<Byte>): (text: string)
    ensures |text| == 2 * |bytes|
  {
    if bytes == [] then ""
    else
      var last := bytes[|bytes| - 1];
      HexOf(bytes[..|bytes| - 1]) + [HexDigit(last / 16), HexDigit(last % 16)]
  }

  method EncodeHex(bytes: seq<Byte>) returns (output: string)
    ensures output == HexOf(bytes)
  {
    output := "";
    var i := 0;
    while i < |bytes|
      invariant i <= |bytes| && output == HexOf(bytes[..i])
    {
      InitAndLast(bytes, i);
      output := output + [HexDigit(bytes[i] / 16)];
      output := output + [HexDigit(bytes[i] % 16)];
      i := i + 1;
    }
    assert bytes[..|bytes|] == bytes;
  }

  predicate IsHexDigit(c: char) {
    '0' <= c <= '9' || 'a' <= c <= 'f' || 'A' <= c <= 'F'
  }

  /** The check the API makes of a reported payload. */
  predicate AcceptsPayload(text: string) {
    |text| <= MAX_PAYLOAD_HEX && |text| % 2 == 0 && AllHex(text)
  }

  function DigitValue(c: char): nat {
    if '0' <= c <= '9' then (c - '0') as nat else if 'a' <= c <= 'f' then (c - 'a') as nat + 10 else 0
  }

  function BytesOfHex(text: string): seq<nat> {
    if |text| < 2 then []
    else BytesOfHex(text[..|text| - 2]) + [16 * DigitValue(text[|text| - 2]) + DigitValue(text[|text| - 1])]
  }

  lemma DigitReads(n: nat)
    requires n < 16
    ensures DigitValue(HexDigit(n)) == n && IsHexDigit(HexDigit(n))
  {
  }

  lemma HexStep(bytes: seq<Byte>)
    requires bytes != []
    ensures var last := bytes[|bytes| - 1];
            HexOf(bytes) == HexOf(bytes[..|bytes| - 1]) + [HexDigit(last / 16), HexDigit(last % 16)]
  {
    hide HexDigit;
  }

  predicate AllHex(text: string) {
    forall i :: 0 <= i < |text| ==> IsHexDigit(text[i])
  }

  lemma TwoMoreDigits(text: string, high: char, low: char)
    requires AllHex(text) && IsHexDigit(high) && IsHexDigit(low)
    ensures AllHex(text + [high, low])
    ensures BytesOfHex(text + [high, low]) == BytesOfHex(text) + [16 * DigitValue(high) + DigitValue(low)]
  {
    hide IsHexDigit, DigitValue;
    assert (text + [high, low])[..|text|] == text;
  }

  /** Hexadecimal text gives the bytes back. */
  lemma {:induction false} HexRoundTrip(bytes: seq<Byte>)
    ensures BytesOfHex(HexOf(bytes)) == bytes && AllHex(HexOf(bytes))
  {
    if bytes != [] {
      hide HexOf, HexDigit, DigitValue, IsHexDigit, BytesOfHex, AllHex;
      var init, last := bytes[..|bytes| - 1], bytes[|bytes| - 1];
      HexRoundTrip(init);
      HexStep(bytes);
      DigitReads(last / 16);
      DigitReads(last % 16);
      TwoMoreDigits(HexOf(init), HexDigit(last / 16), HexDigit(last % 16));
      assert bytes == init + [last];
    }
  }

  /** The API accepts the reported payload exactly for up to 4096 bytes, which is all a query may have. */
  lemma PayloadAccepted(bytes: seq<Byte>)
    ensures AcceptsPayload(HexOf(bytes)) <==> |bytes| <= 4096
  {
    hide HexOf, BytesOfHex, IsHexDigit;
    HexRoundTrip(bytes);
  }
}
