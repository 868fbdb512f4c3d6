/** MongoDB replies: BSON documents with patched length prefixes, inside a length-prefixed message. */
module Mongodb {
  import opened Wrappers
  import opened Bytes
  import opened Sequences

  const OP_REPLY: I32 := 1
  const OP_QUERY: I32 := 2004
  const OP_MSG: I32 := 2013
  const MAX_MESSAGE_SIZE: nat := 0x10_0000

  // ---------------------------------------------------------------------------
  // Two's complement, least significant byte first
  // ---------------------------------------------------------------------------

  function I32Bytes(n: I32): (bytes: seq<Byte>)
    ensures |bytes| == 4
  {
    ToLittleEndian(if n < 0 then n + TWO_32 else n, 4)
  }

  function I64Bytes(n: I64): (bytes: seq<Byte>)
    ensures |bytes| == 8
  {
    ToLittleEndian(if n < 0 then n + TWO_64 else n, 8)
  }

  function I32Of(bytes: seq<Byte>): int {
    var n := LittleEndian(bytes);
    if n < TWO_31 then n else n - TWO_32
  }

  function I64Of(bytes: seq<Byte>): int {
    var n := LittleEndian(bytes);
    if n < TWO_63 then n else n - TWO_64
  }

  lemma SignedRoundTrip(n: I32, m: I64)
    ensures I32Of(I32Bytes(n)) == n && I64Of(I64Bytes(m)) == m
  {
    hide LittleEndian, ToLittleEndian, Pow256;
    Pow256Values();
    LittleEndianRoundTrip(if n < 0 then n + TWO_32 else n, 4);
    LittleEndianRoundTrip(if m < 0 then m + TWO_64 else m, 8);
  }

  /** A size cast to a signed 32-bit length; the source stops when it does not fit. */
  function SizeBytes(n: nat): (bytes: seq<Byte>)
    ensures |bytes| == 4
  {
    ToLittleEndian(n % TWO_32, 4)
  }

  lemma SizeReads(n: nat)
    requires n < TWO_31
    ensures I32Of(SizeBytes(n)) == n && SizeBytes(n) == I32Bytes(n)
  {
    SignedRoundTrip(n, 0);
  }

  // ---------------------------------------------------------------------------
  // Documents
  // ---------------------------------------------------------------------------

  /** The kinds of value the replies use; a double is its eight bytes. */
  datatype Value =
    | Double(bits: seq<Byte>)
    | Str(text: Text)
    | Nested(fields: seq<Field>)
    | Bool(flag: bool)
    | Int32(small: I32)
    | Int64(large: I64)

  datatype Field = Field(key: Text, value: Value)

  function KindOf(value: Value): Byte {
    match value
    case Double(_) => 0x01
    case Str(_) => 0x02
    case Nested(_) => 0x03
    case Bool(_) => 0x08
    case Int32(_) => 0x10
    case Int64(_) => 0x12
  }

  function ValueBytes(value: Value): seq<Byte>
    decreases value, 0
  {
    match value
    case Double(bits) => bits
    case Str(text) => SizeBytes(|text| + 1) + text + [0]
    case Nested(fields) => DocumentBytes(fields)
    case Bool(flag) => [if flag then 1 else 0]
    case Int32(n) => I32Bytes(n)
    case Int64(n) => I64Bytes(n)
  }

  function FieldBytes(field: Field): seq<Byte>
    decreases field, 0
  {
    [KindOf(field.value)] + field.key + [0] + ValueBytes(field.value)
  }

  function FieldsBytes(fields: seq<Field>): seq<Byte>
    decreases fields, 0
  {
    if fields == [] then [] else FieldBytes(fields[0]) + FieldsBytes(fields[1..])
  }

  function DocumentBytes(fields: seq<Field>): seq<Byte>
    decreases fields, 1
  {
    SizeBytes(|FieldsBytes(fields)| + 5) + FieldsBytes(fields) + [0]
  }

  // ---------------------------------------------------------------------------
  // Reading documents back
  // ---------------------------------------------------------------------------

  function ReadString(s: seq<Byte>): (r: Option<(Text, seq<Byte>)>)
    ensures r.Some? ==> |r.value.1| <= |s|
  {
    if |s| < 4 then None
    else
      var n := I32Of(s[..4]);
      if n < 1 || 4 + n > |s| || s[3 + n] != 0 then None else Some((s[4..3 + n], s[4 + n..]))
  }

  function ReadValue(kind: Byte, s: seq<Byte>): (r: Option<(Value, seq<Byte>)>)
    ensures r.Some? ==> |r.value.1| <= |s|
    decreases |s|, 1
  {
    if kind == 0x01 && |s| >= 8 then Some((Double(s[..8]), s[8..]))
    else if kind == 0x02 then
      var r := ReadString(s);
      if r.None? then None else Some((Str(r.value.0), r.value.1))
    else if kind == 0x03 then
      var r := ReadDocument(s);
      if r.None? then None else Some((Nested(r.value.0), r.value.1))
    else if kind == 0x08 && |s| >= 1 && s[0] <= 1 then Some((Bool(s[0] == 1), s[1..]))
    else if kind == 0x10 && |s| >= 4 then Some((Int32(SmallOf(s[..4])), s[4..]))
    else if kind == 0x12 && |s| >= 8 then Some((Int64(LargeOf(s[..8])), s[8..]))
    else None
  }

  function SmallOf(bytes: seq<Byte>): I32
    requires |bytes| == 4
  {
    LittleEndianBound(bytes);
    Pow256Values();
    I32Of(bytes)
  }

  function LargeOf(bytes: seq<Byte>): I64
    requires |bytes| == 8
  {
    LittleEndianBound(bytes);
    Pow256Values();
    I64Of(bytes)
  }

  /** Fields up to the terminating zero, which must be the last byte. */
  function ReadFields(s: seq<Byte>): Option<seq<Field>>
    decreases |s|, 0
  {
    if s == [] then None
    else if s[0] == 0 then (if |s| == 1 then Some([]) else None)
    else
      match Position(s[1..], 0)
      case None => None
      case Some(k) =>
        var value := ReadValue(s[0], s[k + 2..]);
        if value.None? then None
        else
          var rest := ReadFields(value.value.1);
          if rest.None? then None else Some([Field(s[1..k + 1], value.value.0)] + rest.value)
  }

  /** A document whose length prefix is its size, and what follows it. */
  function ReadDocument(s: seq<Byte>): (r: Option<(seq<Field>, seq<Byte>)>)
    ensures r.Some? ==> |r.value.1| <= |s|
    decreases |s|, 0
  {
    if |s| < 5 then None
    else
      var n := I32Of(s[..4]);
      if n < 5 || n > |s| then None
      else
        var fields := ReadFields(s[4..n]);
        if fields.None? then None else Some((fields.value, s[n..]))
  }

  // ---------------------------------------------------------------------------
  // Documents round trip
  // ---------------------------------------------------------------------------

  /** Keys without zeros and eight-byte doubles, at every depth. */
  predicate ProperValue(value: Value)
    decreases value, 0
  {
    match value
    case Double(bits) => |bits| == 8
    case Nested(fields) => ProperFields(fields)
    case _ => true
  }

  predicate ProperFields(fields: seq<Field>)
    decreases fields, 0
  {
    fields == [] || (Lacks(fields[0].key, 0) && ProperValue(fields[0].value) && ProperFields(fields[1..]))
  }

  lemma StringReads(text: Text, rest: seq<Byte>)
    requires |text| + 1 < TWO_31
    ensures ReadString(SizeBytes(|text| + 1) + text + [0] + rest) == Some((text, rest))
  {
    hide SizeBytes, I32Of;
    SizeReads(|text| + 1);
    var s := SizeBytes(|text| + 1) + text + [0] + rest;
    assert s[..4] == SizeBytes(|text| + 1);
    assert s[4..4 + |text|] == text && s[4 + |text|] == 0 && s[5 + |text|..] == rest;
  }

  lemma {:induction false} ValueReads(value: Value, rest: seq<Byte>)
    requires ProperValue(value) && |ValueBytes(value)| < TWO_31
    ensures ReadValue(KindOf(value), ValueBytes(value) + rest) == Some((value, rest))
    decreases value, 0
  {
    hide SizeBytes, I32Bytes, I64Bytes, I32Of, I64Of, LittleEndian, ReadString, ReadDocument, DocumentBytes, ProperFields, FieldsBytes;
    hide ReadFields;
    var s := ValueBytes(value) + rest;
    match value
    case Double(bits) =>
      assert s[..8] == bits && s[8..] == rest;
    case Str(text) =>
      StringReads(text, rest);
    case Nested(fields) =>
      DocumentReads(fields, rest);
    case Bool(flag) =>
      assert s[1..] == rest;
    case Int32(n) =>
      SignedRoundTrip(n, 0);
      assert s[..4] == I32Bytes(n) && s[4..] == rest;
    case Int64(n) =>
      SignedRoundTrip(0, n);
      assert s[..8] == I64Bytes(n) && s[8..] == rest;
  }

  lemma FieldSplits(field: Field, rest: seq<Byte>)
    requires Lacks(field.key, 0)
    ensures var s := FieldBytes(field) + rest;
            && s != [] && s[0] == KindOf(field.value) && Position(s[1..], 0) == Some(|field.key|)
            && s[1..|field.key| + 1] == field.key && s[|field.key| + 2..] == ValueBytes(field.value) + rest
  {
    hide ValueBytes, Position;
    var s := FieldBytes(field) + rest;
    assert s[1..] == field.key + [0] + (ValueBytes(field.value) + rest);
    PositionAfter(field.key, 0, ValueBytes(field.value) + rest);
  }

  lemma FieldSize(field: Field)
    ensures |FieldBytes(field)| == |field.key| + 2 + |ValueBytes(field.value)|
  {
    hide ValueBytes;
  }

  lemma FieldsStep(s: seq<Byte>, k: nat)
    requires s != [] && s[0] != 0 && Position(s[1..], 0) == Some(k)
    ensures var value := ReadValue(s[0], s[k + 2..]);
            value.Some? && ReadFields(value.value.1).Some? ==>
              ReadFields(s) == Some([Field(s[1..k + 1], value.value.0)] + ReadFields(value.value.1).value)
  {
    hide ReadValue, Position;
  }

  lemma {:induction false} FieldsRead(fields: seq<Field>)
    requires ProperFields(fields) && |FieldsBytes(fields)| < TWO_31
    ensures ReadFields(FieldsBytes(fields) + [0]) == Some(fields)
    decreases fields, 0
  {
    hide ReadFields, ReadValue, FieldBytes, ValueBytes, ProperValue, Position;
    if fields == [] {
      EndReads();
      assert FieldsBytes(fields) + [0] == [0];
    } else {
      var field, rest := fields[0], FieldsBytes(fields[1..]) + [0];
      FieldSplits(field, rest);
      FieldSize(field);
      Associative(FieldBytes(field), FieldsBytes(fields[1..]), [0]);
      ValueReads(field.value, rest);
      FieldsRead(fields[1..]);
      FieldsStep(FieldBytes(field) + rest, |field.key|);
      assert fields == [field] + fields[1..];
    }
  }

  lemma EndReads()
    ensures ReadFields([0]) == Some([])
  {
  }

  /** Every proper document reads back, at any depth, its length prefix being exactly its size. */
  lemma {:induction false} DocumentReads(fields: seq<Field>, rest: seq<Byte>)
    requires ProperFields(fields) && |DocumentBytes(fields)| < TWO_31
    ensures ReadDocument(DocumentBytes(fields) + rest) == Some((fields, rest))
    ensures I32Of(DocumentBytes(fields)[..4]) == |DocumentBytes(fields)|
    decreases fields, 1
  {
    hide SizeBytes, I32Of, FieldsBytes, ReadFields, ProperFields;
    var body := FieldsBytes(fields);
    SizeReads(|body| + 5);
    var s := DocumentBytes(fields) + rest;
    assert s[..4] == SizeBytes(|body| + 5) && DocumentBytes(fields)[..4] == SizeBytes(|body| + 5);
    assert s[4..|body| + 5] == body + [0] && s[|body| + 5..] == rest;
    FieldsRead(fields);
  }

  lemma {:induction false} FieldsAppend(fields: seq<Field>, field: Field)
    ensures FieldsBytes(fields + [field]) == FieldsBytes(fields) + FieldBytes(field)
  {
    hide FieldBytes;
    if fields == [] {
      assert fields + [field] == [field];
      assert FieldsBytes([field]) == FieldBytes(field) + FieldsBytes([]);
    } else {
      FieldsAppend(fields[1..], field);
      TailOfConcat(fields, [field]);
      assert (fields + [field])[0] == fields[0];
      Associative(FieldBytes(fields[0]), FieldsBytes(fields[1..]), FieldBytes(field));
    }
  }

  // ---------------------------------------------------------------------------
  // The document writer
  // ---------------------------------------------------------------------------

  /** A document under construction: four bytes kept free for the length, then the fields pushed so far. */
  class DocumentWriter {
    var bytes: seq<Byte>
    ghost var fields: seq<Field>

    ghost predicate Valid()
      reads this
    {
      |bytes| >= 4 && bytes[4..] == FieldsBytes(fields)
    }

    constructor ()
      ensures Valid() && fields == []
    {
      bytes, fields := [0, 0, 0, 0], [];
    }

    method Push(key: Text, value: Value)
      requires Valid()
      modifies this
      ensures Valid() && fields == old(fields) + [Field(key, value)]
    {
      hide FieldsBytes, ValueBytes;
      FieldsAppend(fields, Field(key, value));
      ghost var before := bytes[4..];
      bytes := bytes + ([KindOf(value)] + key + [0] + ValueBytes(value));
      fields := fields + [Field(key, value)];
      assert bytes[4..] == before + FieldBytes(Field(key, value));
    }

    /** Closes the document and patches its length in place. */
    method Finish()
      requires Valid()
      modifies this
      ensures bytes == DocumentBytes(old(fields))
    {
      hide FieldsBytes;
      ghost var body := bytes[4..];
      bytes := bytes + [0];
      var length := SizeBytes(|bytes|);
      bytes := length + bytes[4..];
      assert bytes == length + body + [0];
    }
  }

  // ---------------------------------------------------------------------------
  // Requests
  // ---------------------------------------------------------------------------

  datatype Command = ServerStatus | BuildInfo | IsMaster | Hello | Unknown

  function Lower(b: Byte): Byte {
    if 65 <= b <= 90 then b + 32 else b
  }

  function Lowered(payload: seq<Byte>): seq<Byte> {
    seq(|payload|, i requires 0 <= i < |payload| => Lower(payload[i]))
  }

  predicate StartsAt(payload: seq<Byte>, i: nat, word: Text) {
    i + |word| <= |payload| && payload[i..i + |word|] == word
  }

  predicate Contains(payload: seq<Byte>, word: Text) {
    exists i :: 0 <= i <= |payload| - |word| && StartsAt(payload, i, word)
  }

  function DetectCommand(payload: seq<Byte>): Command {
    var lowered := Lowered(payload);
    if Contains(lowered, Ascii("serverstatus")) then ServerStatus
    else if Contains(lowered, Ascii("buildinfo")) then BuildInfo
    else if Contains(lowered, Ascii("ismaster")) then IsMaster
    else if Contains(lowered, Ascii("hello")) then Hello
    else Unknown
  }

  datatype Request = Request(requestId: I32, opcode: I32, command: Command)

  datatype Incoming = EndOfInput | Malformed | Incoming(request: Request, rest: seq<Byte>)

  function ReadRequest(input: seq<Byte>): Incoming {
    if |input| < 16 then EndOfInput
    else
      var length := I32Of(input[..4]);
      if length < 16 || length > MAX_MESSAGE_SIZE || length > |input| then Malformed
      else
        var opcode := SmallOf(input[12..16]);
        if opcode != OP_QUERY && opcode != OP_MSG then Malformed
        else Incoming(Request(SmallOf(input[4..8]), opcode, DetectCommand(input[16..length])), input[length..])
  }

  // ---------------------------------------------------------------------------
  // Replies
  // ---------------------------------------------------------------------------

  datatype Config = Config(serverVersion: Option<Text>, hostname: Option<Text>, maxWireVersion: Option<I32>)

  function VersionOf(config: Config): Text {
    if config.serverVersion.Some? then config.serverVersion.value else Ascii("7.0.14-seclab")
  }

  function HostOf(config: Config): Text {
    if config.hostname.Some? then config.hostname.value else Ascii("mongodb-seclab")
  }

  const ONE: seq<Byte> := [0, 0, 0, 0, 0, 0, 0xf0, 0x3f]
  const ZERO: seq<Byte> := [0, 0, 0, 0, 0, 0, 0, 0]

  const Connections: seq<Field> := [
    Field(Ascii("current"), Int32(1)), Field(Ascii("available"), Int32(1023)), Field(Ascii("totalCreated"), Int64(1))]

  function ResponseFields(command: Command, config: Config): seq<Field> {
    match command
    case Hello => HelloFields(config)
    case IsMaster => HelloFields(config)
    case BuildInfo => [
      Field(Ascii("version"), Str(VersionOf(config))),
      Field(Ascii("gitVersion"), Str(Ascii("seclab-protocol-simulation"))),
      Field(Ascii("bits"), Int32(64)),
      Field(Ascii("ok"), Double(ONE))]
    case ServerStatus => [
      Field(Ascii("host"), Str(HostOf(config))),
      Field(Ascii("version"), Str(VersionOf(config))),
      Field(Ascii("process"), Str(Ascii("mongod"))),
      Field(Ascii("pid"), Int64(1)),
      Field(Ascii("uptime"), Int64(3600)),
      Field(Ascii("uptimeMillis"), Int64(3_600_000)),
      Field(Ascii("connections"), Nested(Connections)),
      Field(Ascii("ok"), Double(ONE))]
    case Unknown => [
      Field(Ascii("ok"), Double(ZERO)),
      Field(Ascii("errmsg"), Str(Ascii("no such command in protocol simulation"))),
      Field(Ascii("code"), Int32(59))]
  }

  function HelloFields(config: Config): seq<Field> {
    [Field(Ascii("isWritablePrimary"), Bool(true)),
     Field(Ascii("ismaster"), Bool(true)),
     Field(Ascii("me"), Str(HostOf(config) + Ascii(":27017"))),
     Field(Ascii("minWireVersion"), Int32(0)),
     Field(Ascii("maxWireVersion"), Int32(if config.maxWireVersion.Some? then config.maxWireVersion.value else 21)),
     Field(Ascii("maxBsonObjectSize"), Int32(16_777_216)),
     Field(Ascii("ok"), Double(ONE))]
  }

  /** What stands between the header and the document. */
  function Preamble(opcode: I32): seq<Byte> {
    if opcode == OP_QUERY then I32Bytes(0) + I64Bytes(0) + I32Bytes(0) + I32Bytes(1) else ToLittleEndian(0, 4) + [0]
  }

  function ReplyOpcode(opcode: I32): I32 {
    if opcode == OP_QUERY then OP_REPLY else OP_MSG
  }

  function Response(request: Request, config: Config): seq<Byte> {
    var body := Preamble(request.opcode) + DocumentBytes(ResponseFields(request.command, config));
    SizeBytes(16 + |body|) + I32Bytes(1) + I32Bytes(request.requestId) + I32Bytes(ReplyOpcode(request.opcode)) + body
  }

  method HelloDocument(config: Config) returns (doc: DocumentWriter)
    ensures doc.bytes == DocumentBytes(HelloFields(config))
  {
    hide DocumentBytes, Ascii, HostOf;
    doc := new DocumentWriter();
    doc.Push(Ascii("isWritablePrimary"), Bool(true));
    doc.Push(Ascii("ismaster"), Bool(true));
    doc.Push(Ascii("me"), Str(HostOf(config) + Ascii(":27017")));
    doc.Push(Ascii("minWireVersion"), Int32(0));
    doc.Push(Ascii("maxWireVersion"), Int32(if config.maxWireVersion.Some? then config.maxWireVersion.value else 21));
    doc.Push(Ascii("maxBsonObjectSize"), Int32(16_777_216));
    doc.Push(Ascii("ok"), Double(ONE));
    assert doc.fields == HelloFields(config);
    doc.Finish();
  }

  method BuildInfoDocument(config: Config) returns (doc: DocumentWriter)
    ensures doc.bytes == DocumentBytes(ResponseFields(BuildInfo, config))
  {
    hide DocumentBytes, Ascii, VersionOf, HelloFields;
    doc := new DocumentWriter();
    doc.Push(Ascii("version"), Str(VersionOf(config)));
    doc.Push(Ascii("gitVersion"), Str(Ascii("seclab-protocol-simulation")));
    doc.Push(Ascii("bits"), Int32(64));
    doc.Push(Ascii("ok"), Double(ONE));
    assert doc.fields == ResponseFields(BuildInfo, config);
    doc.Finish();
  }

  method ServerStatusDocument(config: Config) returns (doc: DocumentWriter)
    ensures doc.bytes == DocumentBytes(ResponseFields(ServerStatus, config))
  {
    hide DocumentBytes, Ascii, VersionOf, HostOf, HelloFields;
    doc := new DocumentWriter();
    doc.Push(Ascii("host"), Str(HostOf(config)));
    doc.Push(Ascii("version"), Str(VersionOf(config)));
    doc.Push(Ascii("process"), Str(Ascii("mongod")));
    doc.Push(Ascii("pid"), Int64(1));
    doc.Push(Ascii("uptime"), Int64(3600));
    doc.Push(Ascii("uptimeMillis"), Int64(3_600_000));
    doc.Push(Ascii("connections"), Nested(Connections));
    doc.Push(Ascii("ok"), Double(ONE));
    assert doc.fields == ResponseFields(ServerStatus, config);
    doc.Finish();
  }

  method UnknownDocument(config: Config) returns (doc: DocumentWriter)
    ensures doc.bytes == DocumentBytes(ResponseFields(Unknown, config))
  {
    hide DocumentBytes, Ascii, HelloFields;
    doc := new DocumentWriter();
    doc.Push(Ascii("ok"), Double(ZERO));
    doc.Push(Ascii("errmsg"), Str(Ascii("no such command in protocol simulation")));
    doc.Push(Ascii("code"), Int32(59));
    assert doc.fields == ResponseFields(Unknown, config);
    doc.Finish();
  }

  method BuildResponse(request: Request, config: Config) returns (response: seq<Byte>)
    ensures response == Response(request, config)
  {
    hide DocumentBytes, HelloFields;
    var doc: DocumentWriter;
    match request.command {
      case Hello => doc := HelloDocument(config);
      case IsMaster => doc := HelloDocument(config);
      case BuildInfo => doc := BuildInfoDocument(config);
      case ServerStatus => doc := ServerStatusDocument(config);
      case Unknown => doc := UnknownDocument(config);
    }
    var body := Preamble(request.opcode);
    body := body + doc.bytes;
    response := SizeBytes(16 + |body|);
    response := response + I32Bytes(1);
    response := response + I32Bytes(request.requestId);
    response := response + I32Bytes(ReplyOpcode(request.opcode));
    response := response + body;
  }

  datatype Reply = Reply(responseTo: int, opcode: int, fields: seq<Field>)

  /** No flags; of a legacy reply no cursor, from the first document on, and one of them; of a message a body section. */
  predicate ProperPreamble(bytes: seq<Byte>, opcode: int)
    requires |bytes| >= if opcode == OP_REPLY then 36 else 21
  {
    if opcode == OP_REPLY then
      bytes[16..32] == [0, 0, 0, 0, 0, 0, 0, 0, 0, 0, 0, 0, 0, 0, 0, 0] && I32Of(bytes[32..36]) == 1
    else bytes[16..21] == [0, 0, 0, 0, 0]
  }

  /** A client reading a whole reply: the outer length is the message's size and the document fills the rest. */
  function ReadReply(bytes: seq<Byte>): Option<Reply> {
    if |bytes| < 16 || I32Of(bytes[..4]) != |bytes| then None
    else
      var opcode := I32Of(bytes[12..16]);
      var start := if opcode == OP_REPLY then 36 else 21;
      if |bytes| < start || !ProperPreamble(bytes, opcode) then None
      else
        var document := ReadDocument(bytes[start..]);
        if document.None? || document.value.1 != [] then None
        else Some(Reply(I32Of(bytes[8..12]), opcode, document.value.0))
  }

  lemma FourWords(a: seq<Byte>, b: seq<Byte>, c: seq<Byte>, d: seq<Byte>, body: seq<Byte>)
    requires |a| == |b| == |c| == |d| == 4
    ensures var s := a + b + c + d + body;
            s[..4] == a && s[4..8] == b && s[8..12] == c && s[12..16] == d && s[16..] == body
  {
  }

  lemma AfterPreamble(head: seq<Byte>, preamble: seq<Byte>, document: seq<Byte>)
    ensures (head + (preamble + document))[|head| + |preamble|..] == document
  {
  }

  lemma KeysLackZero()
    ensures Lacks(Ascii("isWritablePrimary"), 0) && Lacks(Ascii("ismaster"), 0) && Lacks(Ascii("me"), 0)
    ensures Lacks(Ascii("minWireVersion"), 0) && Lacks(Ascii("maxWireVersion"), 0) && Lacks(Ascii("maxBsonObjectSize"), 0)
    ensures Lacks(Ascii("ok"), 0) && Lacks(Ascii("version"), 0) && Lacks(Ascii("gitVersion"), 0) && Lacks(Ascii("bits"), 0)
  {
  }

  lemma MoreKeysLackZero()
    ensures Lacks(Ascii("host"), 0) && Lacks(Ascii("process"), 0) && Lacks(Ascii("pid"), 0) && Lacks(Ascii("uptime"), 0)
    ensures Lacks(Ascii("uptimeMillis"), 0) && Lacks(Ascii("connections"), 0) && Lacks(Ascii("errmsg"), 0)
    ensures Lacks(Ascii("code"), 0) && Lacks(Ascii("current"), 0) && Lacks(Ascii("available"), 0)
    ensures Lacks(Ascii("totalCreated"), 0)
  {
  }

  lemma {:induction false} ProperAll(fields: seq<Field>)
    requires forall i :: 0 <= i < |fields| ==> Lacks(fields[i].key, 0) && ProperValue(fields[i].value)
    ensures ProperFields(fields)
  {
    hide ProperValue;
    if fields != [] {
      ProperAll(fields[1..]);
    }
  }

  lemma ResponseIsProper(command: Command, config: Config)
    ensures ProperFields(ResponseFields(command, config))
  {
    hide Ascii, VersionOf, HostOf;
    KeysLackZero();
    MoreKeysLackZero();
    ProperAll(Connections);
    ProperAll(ResponseFields(command, config));
  }

  lemma ZeroBytes()
    ensures I32Bytes(0) == [0, 0, 0, 0] && I64Bytes(0) == [0, 0, 0, 0, 0, 0, 0, 0] && ToLittleEndian(0, 4) == [0, 0, 0, 0]
  {
    assert ToLittleEndian(0, 1) == [0] && ToLittleEndian(0, 2) == [0, 0] && ToLittleEndian(0, 3) == [0, 0, 0];
    assert ToLittleEndian(0, 5) == [0] + ToLittleEndian(0, 4) && ToLittleEndian(0, 6) == [0] + ToLittleEndian(0, 5);
    assert ToLittleEndian(0, 7) == [0] + ToLittleEndian(0, 6) && ToLittleEndian(0, 8) == [0] + ToLittleEndian(0, 7);
  }

  lemma PreambleIsProper(head: seq<Byte>, opcode: I32, document: seq<Byte>)
    requires |head| == 16 && (opcode == OP_QUERY || opcode == OP_MSG)
    ensures |head + (Preamble(opcode) + document)| >= if ReplyOpcode(opcode) == OP_REPLY then 36 else 21
    ensures ProperPreamble(head + (Preamble(opcode) + document), ReplyOpcode(opcode))
  {
    hide I32Bytes, I64Bytes, I32Of, ToLittleEndian;
    ZeroBytes();
    SignedRoundTrip(1, 0);
    var bytes := head + (Preamble(opcode) + document);
    if opcode == OP_QUERY {
      assert bytes[32..36] == I32Bytes(1);
      assert bytes[16..32] == I32Bytes(0) + I64Bytes(0) + I32Bytes(0);
    } else {
      assert bytes[16..21] == ToLittleEndian(0, 4) + [0];
    }
  }

  /**
   A reply reads back whenever its size fits its length field (the source stops otherwise): the outer length is its
   size, it echoes the request id, and every document inside, at each depth, has its own size as its prefix.
   */
  lemma ResponseReads(request: Request, config: Config)
    requires request.opcode == OP_QUERY || request.opcode == OP_MSG
    requires |Response(request, config)| < TWO_31
    ensures ReadReply(Response(request, config))
         == Some(Reply(request.requestId, ReplyOpcode(request.opcode), ResponseFields(request.command, config)))
  {
    hide SizeBytes, I32Bytes, I32Of, I64Bytes, ReadDocument, DocumentBytes, ResponseFields, VersionOf, HostOf, ProperFields,
      ProperPreamble;
    var fields := ResponseFields(request.command, config);
    var document := DocumentBytes(fields);
    var body := Preamble(request.opcode) + document;
    var opcode := ReplyOpcode(request.opcode);
    ResponseIsProper(request.command, config);
    DocumentReads(fields, []);
    assert document + [] == document;
    SizeReads(16 + |body|);
    SignedRoundTrip(request.requestId, 0);
    SignedRoundTrip(opcode, 0);
    FourWords(SizeBytes(16 + |body|), I32Bytes(1), I32Bytes(request.requestId), I32Bytes(opcode), body);
    PreambleIsProper(SizeBytes(16 + |body|) + I32Bytes(1) + I32Bytes(request.requestId) + I32Bytes(opcode), request.opcode, document);
    AfterPreamble(SizeBytes(16 + |body|) + I32Bytes(1) + I32Bytes(request.requestId) + I32Bytes(opcode), Preamble(request.opcode), document);
  }

  function PrintedRequest(requestId: I32, responseTo: I32, opcode: I32, payload: seq<Byte>): seq<Byte> {
    SizeBytes(16 + |payload|) + I32Bytes(requestId) + I32Bytes(responseTo) + I32Bytes(opcode) + payload
  }

  /** A request reads exactly when it is within the size limit and has one of the two opcodes. */
  lemma RequestReads(requestId: I32, responseTo: I32, opcode: I32, payload: seq<Byte>, rest: seq<Byte>)
    requires 16 + |payload| < TWO_31
    ensures ReadRequest(PrintedRequest(requestId, responseTo, opcode, payload) + rest)
         == if 16 + |payload| <= 0x10_0000 && (opcode == 2004 || opcode == 2013)
            then Incoming(Request(requestId, opcode, DetectCommand(payload)), rest)
            else Malformed
  {
    hide SizeBytes, I32Bytes, I32Of, LittleEndian, DetectCommand;
    SizeReads(16 + |payload|);
    SignedRoundTrip(requestId, 0);
    SignedRoundTrip(opcode, 0);
    FourWords(SizeBytes(16 + |payload|), I32Bytes(requestId), I32Bytes(responseTo), I32Bytes(opcode), payload + rest);
    var input := PrintedRequest(requestId, responseTo, opcode, payload) + rest;
    Associative(SizeBytes(16 + |payload|) + I32Bytes(requestId) + I32Bytes(responseTo) + I32Bytes(opcode), payload, rest);
    assert input[16..][..|payload|] == payload && input[16..][|payload|..] == rest;
    assert input[16..16 + |payload|] == input[16..][..|payload|] && input[16 + |payload|..] == input[16..][|payload|..];
  }

  // ---------------------------------------------------------------------------
  // What a client is told
  // ---------------------------------------------------------------------------

  /** The word stands somewhere in the payload, in any case; the words are in lower-case letters. */
  ghost predicate Mentions(payload: seq<Byte>, word: string) {
    exists i :: 0 <= i <= |payload| - |word| && StandsAt(payload, word, i)
  }

  /** The byte is this lower-case letter, or the same in upper case. */
  predicate IsLetter(b: int, letter: char) {
    b == letter as int || b + 32 == letter as int
  }

  predicate StandsAt(payload: seq<Byte>, word: string, i: nat) {
    && i + |word| <= |payload|
    && forall j :: 0 <= j < |word| ==> IsLetter(payload[i + j], word[j])
  }

  predicate IsLowerWord(word: string) {
    forall j :: 0 <= j < |word| ==> 'a' <= word[j] <= 'z'
  }

  lemma MentionedExactly(payload: seq<Byte>, word: string)
    requires IsLowerWord(word)
    ensures Contains(Lowered(payload), Ascii(word)) <==> Mentions(payload, word)
  {
    hide Ascii, StartsAt, StandsAt;
    if Contains(Lowered(payload), Ascii(word)) {
      var i :| 0 <= i <= |Lowered(payload)| - |Ascii(word)| && StartsAt(Lowered(payload), i, Ascii(word));
      StandsExactly(payload, word, i);
    }
    if Mentions(payload, word) {
      var i :| 0 <= i <= |payload| - |word| && StandsAt(payload, word, i);
      StandsExactly(payload, word, i);
    }
  }

  lemma StandsExactly(payload: seq<Byte>, word: string, i: nat)
    requires IsLowerWord(word) && i + |word| <= |payload|
    ensures StartsAt(Lowered(payload), i, Ascii(word)) <==> StandsAt(payload, word, i)
  {
    var lowered := Lowered(payload);
    assert |lowered| == |payload|;
    if StandsAt(payload, word, i) {
      forall j | 0 <= j < |word|
        ensures lowered[i..i + |word|][j] == Ascii(word)[j]
      {
      }
      assert lowered[i..i + |word|] == Ascii(word);
    }
    if StartsAt(lowered, i, Ascii(word)) {
      forall j | 0 <= j < |word|
        ensures IsLetter(payload[i + j], word[j])
      {
        assert lowered[i..i + |word|][j] == Ascii(word)[j];
      }
    }
  }

  lemma CommandWords()
    ensures IsLowerWord("serverstatus") && IsLowerWord("buildinfo") && IsLowerWord("ismaster") && IsLowerWord("hello")
  {
  }

  /** What a document holds under a key. */
  function Held(fields: seq<Field>, key: string): Option<Value> {
    if fields == [] then None else if fields[0].key == Ascii(key) then Some(fields[0].value) else Held(fields[1..], key)
  }

  /**
   The fields a client must find, from the payload and the configuration alone: the first of the four commands that is
   mentioned decides, and `ok` is 1.0 exactly when one is.
   */
  ghost predicate Tells(payload: seq<Byte>, config: Config, fields: seq<Field>) {
    var version := if config.serverVersion.Some? then config.serverVersion.value else Ascii("7.0.14-seclab");
    var host := if config.hostname.Some? then config.hostname.value else Ascii("mongodb-seclab");
    if Mentions(payload, "serverstatus") then
      && Held(fields, "host") == Some(Str(host)) && Held(fields, "version") == Some(Str(version))
      && Held(fields, "process") == Some(Str(Ascii("mongod"))) && Held(fields, "pid") == Some(Int64(1))
      && Held(fields, "uptime") == Some(Int64(3600)) && Held(fields, "uptimeMillis") == Some(Int64(3_600_000))
      && Held(fields, "connections").Some? && TellsConnections(Held(fields, "connections").value)
      && Held(fields, "ok") == Some(Double([0, 0, 0, 0, 0, 0, 0xf0, 0x3f])) && |fields| == 8
    else if Mentions(payload, "buildinfo") then
      && Held(fields, "version") == Some(Str(version))
      && Held(fields, "gitVersion") == Some(Str(Ascii("seclab-protocol-simulation"))) && Held(fields, "bits") == Some(Int32(64))
      && Held(fields, "ok") == Some(Double([0, 0, 0, 0, 0, 0, 0xf0, 0x3f])) && |fields| == 4
    else if Mentions(payload, "ismaster") || Mentions(payload, "hello") then
      && Held(fields, "isWritablePrimary") == Some(Bool(true)) && Held(fields, "ismaster") == Some(Bool(true))
      && Held(fields, "me") == Some(Str(host + Ascii(":27017")))
      && Held(fields, "minWireVersion") == Some(Int32(0))
      && Held(fields, "maxWireVersion") == Some(Int32(if config.maxWireVersion.Some? then config.maxWireVersion.value else 21))
      && Held(fields, "maxBsonObjectSize") == Some(Int32(16_777_216))
      && Held(fields, "ok") == Some(Double([0, 0, 0, 0, 0, 0, 0xf0, 0x3f])) && |fields| == 7
    else
      && Held(fields, "ok") == Some(Double([0, 0, 0, 0, 0, 0, 0, 0]))
      && Held(fields, "errmsg") == Some(Str(Ascii("no such command in protocol simulation")))
      && Held(fields, "code") == Some(Int32(59)) && |fields| == 3
  }

  predicate TellsConnections(value: Value) {
    && value.Nested? && |value.fields| == 3
    && Held(value.fields, "current") == Some(Int32(1)) && Held(value.fields, "available") == Some(Int32(1023))
    && Held(value.fields, "totalCreated") == Some(Int64(1))
  }

  lemma {:induction false} HeldAt(fields: seq<Field>, key: string, k: nat)
    requires k < |fields| && fields[k].key == Ascii(key)
    requires forall j :: 0 <= j < k ==> fields[j].key != Ascii(key)
    ensures Held(fields, key) == Some(fields[k].value)
  {
    hide Ascii;
    if k > 0 {
      HeldAt(fields[1..], key, k - 1);
    }
  }

  lemma FirstLetters(key: string)
    requires |key| >= 2 && key[0] < '\U{80}' && key[1] < '\U{80}'
    ensures Ascii(key)[0] == key[0] as int && Ascii(key)[1] == key[1] as int
  {
  }

  lemma HelloTells(payload: seq<Byte>, config: Config)
    requires !Mentions(payload, "serverstatus") && !Mentions(payload, "buildinfo")
    requires Mentions(payload, "ismaster") || Mentions(payload, "hello")
    ensures Tells(payload, config, HelloFields(config))
  {
    hide Ascii, Held, Mentions;
    var fields := HelloFields(config);
    FirstLetters("isWritablePrimary");
    FirstLetters("maxBsonObjectSize");
    FirstLetters("me");
    FirstLetters("ok");
    FirstLetters("minWireVersion");
    FirstLetters("maxWireVersion");
    HeldAt(fields, "isWritablePrimary", 0);
    HeldAt(fields, "ismaster", 1);
    HeldAt(fields, "me", 2);
    HeldAt(fields, "minWireVersion", 3);
    HeldAt(fields, "maxWireVersion", 4);
    HeldAt(fields, "maxBsonObjectSize", 5);
    HeldAt(fields, "ok", 6);
  }

  lemma BuildInfoTells(payload: seq<Byte>, config: Config)
    requires !Mentions(payload, "serverstatus") && Mentions(payload, "buildinfo")
    ensures Tells(payload, config, ResponseFields(BuildInfo, config))
  {
    hide Ascii, Held, Mentions, HelloFields;
    var fields := ResponseFields(BuildInfo, config);
    HeldAt(fields, "version", 0);
    HeldAt(fields, "gitVersion", 1);
    HeldAt(fields, "bits", 2);
    HeldAt(fields, "ok", 3);
  }

  lemma ConnectionsTell()
    ensures TellsConnections(Nested(Connections))
  {
    hide Ascii, Held;
    HeldAt(Connections, "current", 0);
    HeldAt(Connections, "available", 1);
    HeldAt(Connections, "totalCreated", 2);
  }

  lemma ServerStatusTells(payload: seq<Byte>, config: Config)
    requires Mentions(payload, "serverstatus")
    ensures Tells(payload, config, ResponseFields(ServerStatus, config))
  {
    hide Ascii, Held, Mentions, HelloFields, Connections, TellsConnections;
    var fields := ResponseFields(ServerStatus, config);
    FirstLetters("version");
    FirstLetters("process");
    ConnectionsTell();
    HeldAt(fields, "host", 0);
    HeldAt(fields, "version", 1);
    HeldAt(fields, "process", 2);
    HeldAt(fields, "pid", 3);
    HeldAt(fields, "uptime", 4);
    HeldAt(fields, "uptimeMillis", 5);
    HeldAt(fields, "connections", 6);
    HeldAt(fields, "ok", 7);
  }

  lemma UnknownTells(payload: seq<Byte>, config: Config)
    requires !Mentions(payload, "serverstatus") && !Mentions(payload, "buildinfo")
    requires !Mentions(payload, "ismaster") && !Mentions(payload, "hello")
    ensures Tells(payload, config, ResponseFields(Unknown, config))
  {
    hide Ascii, Held, Mentions, HelloFields;
    var fields := ResponseFields(Unknown, config);
    HeldAt(fields, "ok", 0);
    HeldAt(fields, "errmsg", 1);
    HeldAt(fields, "code", 2);
  }

  lemma CommandTells(payload: seq<Byte>, config: Config)
    ensures Tells(payload, config, ResponseFields(DetectCommand(payload), config))
  {
    hide Ascii, Held, Mentions, Contains, Lowered, HelloFields, Tells, Connections;
    CommandWords();
    MentionedExactly(payload, "serverstatus");
    MentionedExactly(payload, "buildinfo");
    MentionedExactly(payload, "ismaster");
    MentionedExactly(payload, "hello");
    match DetectCommand(payload)
    case ServerStatus => ServerStatusTells(payload, config);
    case BuildInfo => BuildInfoTells(payload, config);
    case IsMaster => HelloTells(payload, config);
    case Hello => HelloTells(payload, config);
    case Unknown => UnknownTells(payload, config);
  }

  /**
   From the bytes of a request to what a client reads in the reply: its own id, the reply opcode of its kind, and the
   fields of the first command that its payload mentions, with the configured values or the default ones.
   */
  lemma ReplyTellsTheCommand(
    requestId: I32, responseTo: I32, opcode: I32, payload: seq<Byte>, rest: seq<Byte>, config: Config)
    requires 16 + |payload| <= 0x10_0000 && (opcode == 2004 || opcode == 2013)
    requires |Response(Request(requestId, opcode, DetectCommand(payload)), config)| < TWO_31
    ensures var incoming := ReadRequest(PrintedRequest(requestId, responseTo, opcode, payload) + rest);
            && incoming.Incoming? && incoming.rest == rest
            && ReadReply(Response(incoming.request, config)).Some?
            && var reply := ReadReply(Response(incoming.request, config)).value;
            && reply.responseTo == requestId && reply.opcode == (if opcode == 2004 then 1 else 2013)
            && Tells(payload, config, reply.fields)
  {
    hide ReadRequest, PrintedRequest, Response, ReadReply, Tells, DetectCommand, ResponseFields;
    RequestReads(requestId, responseTo, opcode, payload, rest);
    ResponseReads(Request(requestId, opcode, DetectCommand(payload)), config);
    CommandTells(payload, config);
  }
}
