/**
 The PostgreSQL server: length-prefixed messages, the startup packet, and a session gated by credentials. Text is its
 bytes; what depends on character tables (valid UTF-8, blank text, query normalisation) is given.
 */
module Postgresql {
  import opened Wrappers
  import opened Bytes
  import opened Sequences

  const MAX_PACKET_SIZE: nat := 65536
  const SSL_REQUEST: seq<Byte> := [4, 210, 22, 47]
  const PROTOCOL_3: seq<Byte> := [0, 3, 0, 0]

  // ---------------------------------------------------------------------------
  // Messages
  // ---------------------------------------------------------------------------

  datatype Message = Message(kind: char, body: seq<Byte>)

  function KindByte(kind: char): Byte {
    if kind < '\U{80}' then kind as int else 63
  }

  /** The message on the wire. The length counts itself and is cast to 32 bits. */
  function Encoded(m: Message): seq<Byte> {
    [KindByte(m.kind)] + ToBigEndian((|m.body| + 4) % TWO_32, 4) + m.body
  }

  function EncodedAll(messages: seq<Message>): seq<Byte> {
    if messages == [] then [] else Encoded(messages[0]) + EncodedAll(messages[1..])
  }

  /** Cuts bytes into messages: each a kind, a length of at least four that counts itself, and that much. */
  function Split(bytes: seq<Byte>): Option<seq<(Byte, seq<Byte>)>> {
    if bytes == [] then Some([])
    else if |bytes| < 5 then None
    else
      var length := BigEndian(bytes[1..5]);
      if length < 4 || 1 + length > |bytes| then None
      else
        var rest := Split(bytes[1 + length..]);
        if rest.None? then None else Some([(bytes[0], bytes[5..1 + length])] + rest.value)
  }

  predicate Fits(m: Message) {
    |m.body| + 4 < TWO_32
  }

  function Parts(messages: seq<Message>): seq<(Byte, seq<Byte>)> {
    if messages == [] then [] else [(KindByte(messages[0].kind), messages[0].body)] + Parts(messages[1..])
  }

  lemma EncodedHead(m: Message, rest: seq<Byte>)
    ensures var bytes := Encoded(m) + rest;
            |bytes| >= 5 && bytes[0] == KindByte(m.kind) && BigEndian(bytes[1..5]) == (|m.body| + 4) % TWO_32
            && (Fits(m) ==> BigEndian(bytes[1..5]) == |m.body| + 4 && 1 + BigEndian(bytes[1..5]) <= |bytes| && bytes[5..1 + BigEndian(bytes[1..5])] == m.body
                            && bytes[1 + BigEndian(bytes[1..5])..] == rest)
  {
    hide BigEndian, ToBigEndian, Pow256;
    var prefix := ToBigEndian((|m.body| + 4) % TWO_32, 4);
    Pow256Values();
    BigEndianRoundTrip((|m.body| + 4) % TWO_32, 4);
    var bytes := Encoded(m) + rest;
    assert bytes == [KindByte(m.kind)] + (prefix + (m.body + rest));
    assert bytes[1..5] == prefix;
    assert Fits(m) ==> bytes[5..5 + |m.body|] == m.body && bytes[5 + |m.body|..] == rest;
  }

  lemma SplitStep(bytes: seq<Byte>)
    requires |bytes| >= 5
    ensures var length := BigEndian(bytes[1..5]);
            Split(bytes) == if length < 4 || 1 + length > |bytes| then None
                            else
                              var rest := Split(bytes[1 + length..]);
                              if rest.None? then None else Some([(bytes[0], bytes[5..1 + length])] + rest.value)
  {
    hide BigEndian;
  }

  /** Printed messages split back into themselves exactly when every length fits its 32 bits. */
  lemma {:induction false} SplitInvertsEncoding(messages: seq<Message>)
    ensures Split(EncodedAll(messages)) == Some(Parts(messages)) <==> forall m :: m in messages ==> Fits(m)
  {
    hide Split, BigEndian, Encoded;
    if messages == [] {
      EmptySplit();
    } else {
      var m, rest := messages[0], EncodedAll(messages[1..]);
      EncodedHead(m, rest);
      SplitStep(EncodedAll(messages));
      SplitInvertsEncoding(messages[1..]);
      AllOfHeadAndTail(messages);
      if Fits(m) {
        var tail := Split(rest);
        if tail.Some? {
          SameHead((KindByte(m.kind), m.body), tail.value, Parts(messages[1..]));
        }
      } else {
        assert |Parts(messages)[0].1| == |m.body|;
      }
    }
  }

  lemma AllOfHeadAndTail(messages: seq<Message>)
    requires messages != []
    ensures (forall m :: m in messages ==> Fits(m)) <==> Fits(messages[0]) && forall m :: m in messages[1..] ==> Fits(m)
  {
    hide Fits;
    assert messages == [messages[0]] + messages[1..];
  }

  lemma SameHead<T>(x: T, a: seq<T>, b: seq<T>)
    ensures [x] + a == [x] + b <==> a == b
  {
    assert ([x] + a)[1..] == a && ([x] + b)[1..] == b;
  }

  lemma EmptySplit()
    ensures Split([]) == Some([])
  {
  }

  lemma {:induction false} EncodedConcat(a: seq<Message>, b: seq<Message>)
    ensures EncodedAll(a + b) == EncodedAll(a) + EncodedAll(b)
  {
    hide Encoded;
    if a == [] {
      assert a + b == b;
    } else {
      EncodedConcat(a[1..], b);
      TailOfConcat(a, b);
      assert (a + b)[0] == a[0];
      Associative(Encoded(a[0]), EncodedAll(a[1..]), EncodedAll(b));
    }
  }

  function AuthenticationRequest(code: U32): Message {
    Message('R', ToBigEndian(code, 4))
  }

  function ParameterStatus(key: Text, value: Text): Message {
    Message('S', key + [0] + value + [0])
  }

  function ErrorResponse(code: string, message: Text): Message {
    Message('E', Ascii("SERROR") + [0] + Ascii("VERROR") + [0] + Ascii("C") + Ascii(code) + [0] + Ascii("M") + message + [0, 0])
  }

  function RowDescription(column: Text): Message {
    Message('T', ToBigEndian(1, 2) + column + [0] + ToBigEndian(0, 4) + ToBigEndian(0, 2) + ToBigEndian(25, 4)
                 + [0xff, 0xff] + [0xff, 0xff, 0xff, 0xff] + ToBigEndian(0, 2))
  }

  function DataRow(value: Text): Message {
    Message('D', ToBigEndian(1, 2) + ToBigEndian(|value| % TWO_32, 4) + value)
  }

  function CommandComplete(tag: Text): Message {
    Message('C', tag + [0])
  }

  /** A client reading a row of one column. */
  function ReadRow(body: seq<Byte>): Option<Text> {
    if |body| < 6 || BigEndian(body[..2]) != 1 || BigEndian(body[2..6]) != |body| - 6 then None else Some(body[6..])
  }

  /** A row's value is read back exactly when its length fits 32 bits. */
  lemma RowReads(value: Text)
    ensures ReadRow(DataRow(value).body) == Some(value) <==> |value| < TWO_32
  {
    hide BigEndian, ToBigEndian, Pow256;
    var body := DataRow(value).body;
    Pow256Values();
    BigEndianRoundTrip(1, 2);
    BigEndianRoundTrip(|value| % TWO_32, 4);
    assert body[..2] == ToBigEndian(1, 2) && body[2..6] == ToBigEndian(|value| % TWO_32, 4) && body[6..] == value;
  }

  const ReadyForQuery: Message := Message('Z', Ascii("I"))

  // ---------------------------------------------------------------------------
  // The startup packet
  // ---------------------------------------------------------------------------

  /** Rust's `split` on a zero byte. */
  function Fields(bytes: seq<Byte>): (fields: seq<seq<Byte>>)
    ensures fields != []
  {
    if bytes == [] then [[]]
    else
      var rest := Fields(bytes[1..]);
      if bytes[0] == 0 then [[]] + rest else [[bytes[0]] + rest[0]] + rest[1..]
  }

  function LeadingNonEmpty(fields: seq<seq<Byte>>): seq<seq<Byte>> {
    if fields == [] || fields[0] == [] then [] else [fields[0]] + LeadingNonEmpty(fields[1..])
  }

  /** Rust's `chunks_exact(2)`. */
  function Pairs(values: seq<seq<Byte>>): seq<(Text, Text)> {
    if |values| < 2 then [] else [(values[0], values[1])] + Pairs(values[2..])
  }

  function FindValue(pairs: seq<(Text, Text)>, name: Text, utf8: Text -> bool): Option<Text> {
    if pairs == [] then None
    else if pairs[0].0 == name && utf8(pairs[0].1) then Some(pairs[0].1)
    else FindValue(pairs[1..], name, utf8)
  }

  predicate IsProtocol3(packet: seq<Byte>) {
    |packet| >= 4 && packet[..4] == PROTOCOL_3
  }

  function StartupParameter(packet: seq<Byte>, name: Text, utf8: Text -> bool): Option<Text> {
    if !IsProtocol3(packet) then None
    else FindValue(Pairs(LeadingNonEmpty(Fields(packet[4..]))), name, utf8)
  }

  /** What a client sends: each pair as two zero-terminated strings, and a final zero. */
  function Printed(pairs: seq<(Text, Text)>): seq<Byte> {
    if pairs == [] then [0] else pairs[0].0 + [0] + (pairs[0].1 + [0] + Printed(pairs[1..]))
  }

  ghost predicate Plain(value: Text) {
    value != [] && forall i :: 0 <= i < |value| ==> value[i] != 0
  }

  ghost predicate PlainPairs(pairs: seq<(Text, Text)>) {
    forall i :: 0 <= i < |pairs| ==> Plain(pairs[i].0) && Plain(pairs[i].1)
  }

  lemma {:induction false} FieldsOfTerminated(value: Text, rest: seq<Byte>)
    requires forall i :: 0 <= i < |value| ==> value[i] != 0
    ensures Fields(value + [0] + rest) == [value] + Fields(rest)
  {
    var bytes := value + [0] + rest;
    if value == [] {
      assert bytes[1..] == rest;
    } else {
      FieldsOfTerminated(value[1..], rest);
      assert bytes[1..] == value[1..] + [0] + rest;
      assert [value[0]] + value[1..] == value;
    }
  }

  lemma {:induction false} PairsComeBack(pairs: seq<(Text, Text)>)
    requires PlainPairs(pairs)
    ensures Pairs(LeadingNonEmpty(Fields(Printed(pairs)))) == pairs
  {
    hide Fields;
    if pairs == [] {
      FieldsOfTerminated([], []);
      assert [] + [0] + [] == Printed(pairs);
    } else {
      var key, value, rest := pairs[0].0, pairs[0].1, Printed(pairs[1..]);
      assert Plain(key) && Plain(value);
      forall i | 0 <= i < |pairs[1..]|
        ensures Plain(pairs[1..][i].0) && Plain(pairs[1..][i].1)
      {
        assert pairs[1..][i] == pairs[i + 1];
      }
      PairsComeBack(pairs[1..]);
      FieldsOfTerminated(key, value + [0] + rest);
      FieldsOfTerminated(value, rest);
      PairsPrepend(key, value, Fields(rest));
    }
  }

  lemma PairsPrepend(key: Text, value: Text, fields: seq<seq<Byte>>)
    requires key != [] && value != []
    ensures Pairs(LeadingNonEmpty([key] + ([value] + fields))) == [(key, value)] + Pairs(LeadingNonEmpty(fields))
  {
    hide Pairs;
    var all, tail := [key] + ([value] + fields), [value] + fields;
    assert all[1..] == tail && tail[1..] == fields;
    assert LeadingNonEmpty(tail) == [value] + LeadingNonEmpty(fields);
    var values := LeadingNonEmpty(all);
    assert values == [key] + ([value] + LeadingNonEmpty(fields));
    assert values[2..] == LeadingNonEmpty(fields);
    PairsStep(values);
  }

  lemma PairsStep(values: seq<seq<Byte>>)
    requires |values| >= 2
    ensures Pairs(values) == [(values[0], values[1])] + Pairs(values[2..])
  {
  }

  /** Reading a parameter finds the first pair printed under its name whose value is text. */
  lemma StartupParameterInvertsPrinting(pairs: seq<(Text, Text)>, name: Text, utf8: Text -> bool)
    requires PlainPairs(pairs)
    ensures StartupParameter(PROTOCOL_3 + Printed(pairs), name, utf8) == FindValue(pairs, name, utf8)
  {
    hide Pairs, Fields, Printed, FindValue;
    PairsComeBack(pairs);
    assert (PROTOCOL_3 + Printed(pairs))[4..] == Printed(pairs);
    assert (PROTOCOL_3 + Printed(pairs))[..4] == PROTOCOL_3;
  }

  // ---------------------------------------------------------------------------
  // Reading
  // ---------------------------------------------------------------------------

  /** The startup packet without its length, and the input after it. */
  function ReadStartup(input: seq<Byte>): (r: Option<(seq<Byte>, seq<Byte>)>)
    ensures r.Some? ==> 4 <= |input| && 4 <= |r.value.0| && |r.value.1| < |input|
    ensures r.Some? ==> input == input[..4] + r.value.0 + r.value.1
  {
    if |input| < 4 then None
    else
      var length := BigEndian(input[..4]);
      if length < 8 || length > MAX_PACKET_SIZE || length > |input| then None
      else Some((input[4..length], input[length..]))
  }

  datatype Incoming = EndOfInput | Malformed | Incoming(kind: Byte, body: seq<Byte>, rest: seq<Byte>)

  function ReadMessage(input: seq<Byte>): (r: Incoming)
    ensures r.Incoming? ==> 5 <= |input| && |r.rest| < |input| && input == [r.kind] + input[1..5] + r.body + r.rest
  {
    if input == [] then EndOfInput
    else if |input| < 5 then Malformed
    else
      var length := BigEndian(input[1..5]);
      if length < 4 || length > MAX_PACKET_SIZE || 1 + length > |input| then Malformed
      else Incoming(input[0], input[5..1 + length], input[1 + length..])
  }

  /** A client's message is read back exactly when it is within the limit. */
  lemma FrontendMessageReads(m: Message, rest: seq<Byte>)
    requires Fits(m)
    ensures ReadMessage(Encoded(m) + rest) == (if |m.body| + 4 <= 65536 then Incoming(KindByte(m.kind), m.body, rest) else Malformed)
  {
    hide BigEndian, Encoded;
    EncodedHead(m, rest);
  }

  function CString(body: seq<Byte>): Text {
    if body != [] && body[|body| - 1] == 0 then body[..|body| - 1] else body
  }

  // ---------------------------------------------------------------------------
  // The session
  // ---------------------------------------------------------------------------

  datatype Config = Config(
    credentials: Option<seq<(Text, Text)>>, databases: Option<seq<Text>>, serverVersion: Option<Text>,
    queryResponses: Option<seq<(Text, Text)>>)

  /** Character tables. */
  datatype Charset = Charset(utf8: Text -> bool, blank: Text -> bool, normalize: Text -> Text)

  function Version(config: Config): Text {
    if config.serverVersion.Some? then config.serverVersion.value else Ascii("16.2-seclab")
  }

  predicate CredentialsMatch(config: Config, username: Text, password: Text) {
    config.credentials.Some? && (username, password) in config.credentials.value
  }

  predicate DatabaseExists(config: Config, database: Text) {
    config.databases.None? || database in config.databases.value
  }

  function FindResponse(responses: seq<(Text, Text)>, normalized: Text, charset: Charset): Option<Text> {
    if responses == [] then None
    else if charset.normalize(responses[0].0) == normalized then Some(responses[0].1)
    else FindResponse(responses[1..], normalized, charset)
  }

  function ConfiguredQueryResponse(config: Config, query: Text, charset: Charset): Option<Text> {
    if config.queryResponses.None? then None
    else FindResponse(config.queryResponses.value, charset.normalize(query), charset)
  }

  function QueryResult(column: string, value: Text, tag: string): seq<Message> {
    [RowDescription(Ascii(column)), DataRow(value), CommandComplete(Ascii(tag)), ReadyForQuery]
  }

  function VersionText(config: Config): Text {
    Ascii("PostgreSQL ") + Version(config) + Ascii(" on x86_64-pc-linux-gnu, compiled by SecLab simulation")
  }

  /** What one query is answered with. */
  function QueryGroup(config: Config, charset: Charset, query: Text): seq<Message> {
    var normalized := charset.normalize(query);
    if normalized == Ascii("show server_version") then QueryResult("server_version", Version(config), "SHOW")
    else if normalized == Ascii("select version()") then
      QueryResult("version", VersionText(config), "SELECT 1")
    else
      var configured := ConfiguredQueryResponse(config, query, charset);
      if configured.Some? then QueryResult("result", configured.value, "SELECT 1")
      else if charset.blank(query) then [Message('I', []), ReadyForQuery]
      else [ErrorResponse("0A000", Ascii("query is not supported by SecLab simulation")), ReadyForQuery]
  }

  const UnsupportedGroup: seq<Message> :=
    [ErrorResponse("0A000", Ascii("extended query protocol is not supported by SecLab simulation")), ReadyForQuery]

  function Group(config: Config, charset: Charset, kind: Byte, body: seq<Byte>): seq<Message> {
    if kind == KindByte('Q') then QueryGroup(config, charset, CString(body)) else UnsupportedGroup
  }

  datatype Outcome = Finished | Broken

  /** The groups sent after the login, one for each message handled. */
  function Turns(config: Config, charset: Charset, input: seq<Byte>): (seq<seq<Message>>, Outcome)
    decreases |input|
  {
    match ReadMessage(input)
    case EndOfInput => ([], Finished)
    case Malformed => ([], Broken)
    case Incoming(kind, body, rest) =>
      if kind == KindByte('X') then ([], Finished)
      else if kind == KindByte('Q') && !charset.utf8(CString(body)) then ([], Broken)
      else
        var (groups, outcome) := Turns(config, charset, rest);
        ([Group(config, charset, kind, body)] + groups, outcome)
  }

  /** All a session sends: whether it declined encryption, the messages up to the login, and a group per message after. */
  datatype Transcript = Transcript(declined: bool, opening: seq<Message>, groups: seq<seq<Message>>, outcome: Outcome)

  function Welcome(config: Config): seq<Message> {
    [AuthenticationRequest(0),
     ParameterStatus(Ascii("server_version"), Version(config)),
     ParameterStatus(Ascii("server_encoding"), Ascii("UTF8")),
     ParameterStatus(Ascii("client_encoding"), Ascii("UTF8")),
     ParameterStatus(Ascii("DateStyle"), Ascii("ISO, MDY")),
     Message('K', ToBigEndian(1, 4) + ToBigEndian(0x5345_434c, 4)),
     ReadyForQuery]
  }

  function UserOf(startup: seq<Byte>, charset: Charset): Text {
    var user := StartupParameter(startup, Ascii("user"), charset.utf8);
    if user.Some? then user.value else []
  }

  function DatabaseOf(startup: seq<Byte>, charset: Charset): Text {
    var database := StartupParameter(startup, Ascii("database"), charset.utf8);
    if database.Some? then database.value else UserOf(startup, charset)
  }

  function MissingDatabase(database: Text): Message {
    ErrorResponse("3D000", Ascii("database \"") + database + Ascii("\" does not exist"))
  }

  function AfterStartup(config: Config, charset: Charset, declined: bool, startup: seq<Byte>, rest: seq<Byte>): Transcript {
    if !IsProtocol3(startup) then
      Transcript(declined, [ErrorResponse("0A000", Ascii("unsupported protocol version"))], [], Finished)
    else
      match ReadMessage(rest)
      case EndOfInput => Transcript(declined, [AuthenticationRequest(3)], [], Finished)
      case Malformed => Transcript(declined, [AuthenticationRequest(3)], [], Broken)
      case Incoming(kind, body, more) =>
        if kind != KindByte('p') then
          Transcript(declined, [AuthenticationRequest(3), ErrorResponse("08P01", Ascii("password message expected"))], [], Finished)
        else if !charset.utf8(CString(body)) then Transcript(declined, [AuthenticationRequest(3)], [], Broken)
        else if !CredentialsMatch(config, UserOf(startup, charset), CString(body)) then
          Transcript(declined, [AuthenticationRequest(3), ErrorResponse("28P01", Ascii("password authentication failed"))], [], Finished)
        else if !DatabaseExists(config, DatabaseOf(startup, charset)) then
          Transcript(declined, [AuthenticationRequest(3), MissingDatabase(DatabaseOf(startup, charset))], [], Finished)
        else
          var (groups, outcome) := Turns(config, charset, more);
          Transcript(declined, [AuthenticationRequest(3)] + Welcome(config), groups, outcome)
  }

  function Session(config: Config, charset: Charset, input: seq<Byte>): Transcript {
    match ReadStartup(input)
    case None => Transcript(false, [], [], Broken)
    case Some((first, rest)) =>
      if first != SSL_REQUEST then AfterStartup(config, charset, false, first, rest)
      else
        match ReadStartup(rest)
        case None => Transcript(true, [], [], Broken)
        case Some((second, more)) => AfterStartup(config, charset, true, second, more)
  }

  function Flatten(groups: seq<seq<Message>>): seq<Message> {
    if groups == [] then [] else groups[0] + Flatten(groups[1..])
  }

  function Messages(t: Transcript): seq<Message> {
    t.opening + Flatten(t.groups)
  }

  function Output(t: Transcript): seq<Byte> {
    (if t.declined then [KindByte('N')] else []) + EncodedAll(Messages(t))
  }

  // ---------------------------------------------------------------------------
  // Groups
  // ---------------------------------------------------------------------------

  /** One group ends in its only ReadyForQuery, and a row stands between its description and its completion. */
  predicate ProperGroup(group: seq<Message>) {
    && group != [] && group[|group| - 1] == ReadyForQuery
    && (forall i :: 0 <= i < |group| - 1 ==> group[i].kind != 'Z')
    && (forall i :: 0 <= i < |group| && group[i].kind == 'D' ==>
         0 < i < |group| - 1 && group[i - 1].kind == 'T' && group[i + 1].kind == 'C')
  }

  lemma ResultIsProper(column: string, value: Text, tag: string)
    ensures ProperGroup(QueryResult(column, value, tag))
  {
    hide Ascii;
  }

  lemma PairIsProper(m: Message)
    requires m.kind == 'I' || m.kind == 'E'
    ensures ProperGroup([m, ReadyForQuery])
  {
    hide Ascii;
  }

  lemma GroupIsProper(config: Config, charset: Charset, kind: Byte, body: seq<Byte>)
    ensures ProperGroup(Group(config, charset, kind, body))
  {
    hide Ascii, ConfiguredQueryResponse, CString, QueryResult, ProperGroup, ErrorResponse, Version;
    var query := CString(body);
    ErrorKind("0A000", Ascii("query is not supported by SecLab simulation"));
    ErrorKind("0A000", Ascii("extended query protocol is not supported by SecLab simulation"));
    ResultIsProper("server_version", Version(config), "SHOW");
    ResultIsProper("version", VersionText(config), "SELECT 1");
    var configured := ConfiguredQueryResponse(config, query, charset);
    ResultIsProper("result", if configured.Some? then configured.value else [], "SELECT 1");
    PairIsProper(Message('I', []));
    PairIsProper(ErrorResponse("0A000", Ascii("query is not supported by SecLab simulation")));
    PairIsProper(ErrorResponse("0A000", Ascii("extended query protocol is not supported by SecLab simulation")));
  }

  lemma ErrorKind(code: string, message: Text)
    ensures ErrorResponse(code, message).kind == 'E'
  {
    hide Ascii;
  }

  lemma {:induction false} GroupsAreProper(config: Config, charset: Charset, input: seq<Byte>)
    ensures forall group :: group in Turns(config, charset, input).0 ==> ProperGroup(group)
    decreases |input|
  {
    hide ReadMessage, Group, ProperGroup;
    match ReadMessage(input)
    case EndOfInput =>
    case Malformed =>
    case Incoming(kind, body, rest) =>
      GroupIsProper(config, charset, kind, body);
      GroupsAreProper(config, charset, rest);
  }

  lemma {:induction false} FirstResponse(responses: seq<(Text, Text)>, normalized: Text, charset: Charset, k: nat)
    requires k < |responses| && charset.normalize(responses[k].0) == normalized
    requires forall j :: 0 <= j < k ==> charset.normalize(responses[j].0) != normalized
    ensures FindResponse(responses, normalized, charset) == Some(responses[k].1)
  {
    if k > 0 {
      FirstResponse(responses[1..], normalized, charset, k - 1);
    }
  }

  predicate IsBuiltIn(normalized: Text) {
    normalized == Ascii("show server_version") || normalized == Ascii("select version()")
  }

  /** A client message the session handles and goes on after. */
  predicate Handled(m: Message, charset: Charset) {
    && |m.body| + 4 <= 65536 && KindByte(m.kind) != KindByte('X')
    && (KindByte(m.kind) == KindByte('Q') ==> charset.utf8(CString(m.body)))
  }

  function GroupsFor(config: Config, charset: Charset, messages: seq<Message>): seq<seq<Message>> {
    if messages == [] then []
    else [Group(config, charset, KindByte(messages[0].kind), messages[0].body)] + GroupsFor(config, charset, messages[1..])
  }

  /** Handled messages are answered in order, one group each, whatever follows them. */
  lemma {:induction false} AnsweredInOrder(config: Config, charset: Charset, messages: seq<Message>, tail: seq<Byte>)
    requires forall m :: m in messages ==> Handled(m, charset)
    ensures Turns(config, charset, EncodedAll(messages) + tail).0
         == GroupsFor(config, charset, messages) + Turns(config, charset, tail).0
    ensures Turns(config, charset, EncodedAll(messages) + tail).1 == Turns(config, charset, tail).1
  {
    hide Encoded, ReadMessage, Group, CString;
    if messages == [] {
      assert EncodedAll(messages) + tail == tail;
    } else {
      var m, rest := messages[0], EncodedAll(messages[1..]) + tail;
      assert m in messages;
      forall other | other in messages[1..]
        ensures Handled(other, charset)
      {
        assert other in messages;
      }
      AnsweredInOrder(config, charset, messages[1..], tail);
      FrontendMessageReads(m, rest);
      Associative(Encoded(m), EncodedAll(messages[1..]), tail);
      TurnsStep(config, charset, EncodedAll(messages) + tail);
    }
  }

  lemma TurnsStep(config: Config, charset: Charset, input: seq<Byte>)
    ensures var m := ReadMessage(input);
            && (m.EndOfInput? ==> Turns(config, charset, input) == ([], Finished))
            && (m.Malformed? ==> Turns(config, charset, input) == ([], Broken))
            && (m.Incoming? ==> Turns(config, charset, input) == Turn(config, charset, m.kind, m.body, m.rest))
  {
    hide ReadMessage, Group, CString;
  }

  /** One message and all that follow it. */
  function Turn(config: Config, charset: Charset, kind: Byte, body: seq<Byte>, rest: seq<Byte>): (seq<seq<Message>>, Outcome) {
    if kind == KindByte('X') then ([], Finished)
    else if kind == KindByte('Q') && !charset.utf8(CString(body)) then ([], Broken)
    else ([Group(config, charset, kind, body)] + Turns(config, charset, rest).0, Turns(config, charset, rest).1)
  }

  // ---------------------------------------------------------------------------
  // The gate
  // ---------------------------------------------------------------------------

  function Framed(packet: seq<Byte>): seq<Byte> {
    ToBigEndian(|packet| + 4, 4) + packet
  }

  predicate IsStartupSize(packet: seq<Byte>) {
    4 <= |packet| <= 65532
  }

  lemma StartupReads(packet: seq<Byte>, rest: seq<Byte>)
    requires IsStartupSize(packet)
    ensures ReadStartup(Framed(packet) + rest) == Some((packet, rest))
  {
    hide BigEndian, ToBigEndian, Pow256;
    Pow256Values();
    BigEndianRoundTrip(|packet| + 4, 4);
    var input := Framed(packet) + rest;
    assert input[..4] == ToBigEndian(|packet| + 4, 4);
    assert input[4..4 + |packet|] == packet && input[4 + |packet|..] == rest;
  }

  lemma StartupIsFramed(input: seq<Byte>)
    requires ReadStartup(input).Some?
    ensures var (packet, rest) := ReadStartup(input).value;
            IsStartupSize(packet) && input == Framed(packet) + rest
  {
    hide BigEndian, ToBigEndian;
    ToBigEndianRoundTrip(input[..4]);
  }

  lemma MessageIsEncoded(input: seq<Byte>, kind: char)
    requires ReadMessage(input).Incoming? && ReadMessage(input).kind == KindByte(kind)
    ensures var m := ReadMessage(input);
            |m.body| + 4 <= 65536 && input == Encoded(Message(kind, m.body)) + m.rest
  {
    hide BigEndian, ToBigEndian, KindByte;
    ToBigEndianRoundTrip(input[1..5]);
  }

  /** The input is a version 3 startup packet and a password message that name a known user and an existing database. */
  predicate Login(
    config: Config, charset: Charset, input: seq<Byte>, startup: seq<Byte>, password: seq<Byte>, rest: seq<Byte>)
  {
    && input == Framed(startup) + (Encoded(Message('p', password)) + rest)
    && IsStartupSize(startup) && IsProtocol3(startup) && |password| + 4 <= 65536
    && charset.utf8(CString(password))
    && CredentialsMatch(config, UserOf(startup, charset), CString(password))
    && DatabaseExists(config, DatabaseOf(startup, charset))
  }

  ghost predicate LogsIn(config: Config, charset: Charset, input: seq<Byte>) {
    exists startup, password, rest ::
      Login(config, charset, input, startup, password, rest)
      || Login(config, charset, DropSslRequest(input), startup, password, rest)
  }

  /** The input after an encryption request; nothing when there is none. */
  function DropSslRequest(input: seq<Byte>): seq<Byte> {
    if Framed([4, 210, 22, 47]) <= input then input[|Framed([4, 210, 22, 47])|..] else []
  }

  predicate IsSilent(messages: seq<Message>) {
    forall i :: 0 <= i < |messages| ==> messages[i].kind == 'E' || messages[i] == AuthenticationRequest(3)
  }

  lemma AfterStartupOpens(config: Config, charset: Charset, declined: bool, startup: seq<Byte>, rest: seq<Byte>)
    requires IsStartupSize(startup)
    ensures var t := AfterStartup(config, charset, declined, startup, rest);
            || (t.opening == [AuthenticationRequest(3)] + Welcome(config)
                && exists password, more :: Login(config, charset, Framed(startup) + rest, startup, password, more))
            || (IsSilent(t.opening) && t.groups == [])
  {
    hide ReadMessage, UserOf, DatabaseOf, Turns, Ascii, Framed, Welcome, CredentialsMatch, DatabaseExists, CString, IsProtocol3, Encoded;
    var t := AfterStartup(config, charset, declined, startup, rest);
    if !IsSilent(t.opening) || t.groups != [] {
      var m := ReadMessage(rest);
      MessageIsEncoded(rest, 'p');
      assert Login(config, charset, Framed(startup) + rest, startup, m.body, m.rest);
    }
  }

  lemma LoginOpens(
    config: Config, charset: Charset, declined: bool, input: seq<Byte>, startup: seq<Byte>, password: seq<Byte>, rest: seq<Byte>)
    requires Login(config, charset, input, startup, password, rest)
    ensures ReadStartup(input).Some? && ReadStartup(input).value.0 == startup && startup != SSL_REQUEST
    ensures AfterStartup(config, charset, declined, startup, ReadStartup(input).value.1).opening
         == [AuthenticationRequest(3)] + Welcome(config)
  {
    hide ReadMessage, ReadStartup, UserOf, DatabaseOf, Turns, Ascii, Framed, Welcome, CredentialsMatch, DatabaseExists, CString, Encoded;
    assert startup[..4][0] == startup[0];
    StartupReads(startup, Encoded(Message('p', password)) + rest);
    FrontendMessageReads(Message('p', password), rest);
  }

  lemma SslRequestReads(input: seq<Byte>)
    ensures ReadStartup(input).Some? && ReadStartup(input).value.0 == SSL_REQUEST
       <==> Framed(SSL_REQUEST) <= input
    ensures Framed(SSL_REQUEST) <= input ==> ReadStartup(input).value.1 == DropSslRequest(input)
  {
    hide ReadStartup, Framed;
    if ReadStartup(input).Some? {
      StartupIsFramed(input);
    }
    if Framed(SSL_REQUEST) <= input {
      assert input == Framed(SSL_REQUEST) + DropSslRequest(input);
      StartupReads(SSL_REQUEST, DropSslRequest(input));
    }
  }

  /**
   A session opens exactly for the inputs that log in. For all others it never sends more than an authentication
   request and an error: no row, no ReadyForQuery.
   */
  lemma OpensExactlyOnLogin(config: Config, charset: Charset, input: seq<Byte>)
    ensures LogsIn(config, charset, input)
       <==> Session(config, charset, input).opening == [AuthenticationRequest(3)] + Welcome(config)
    ensures !LogsIn(config, charset, input) ==> IsSilent(Messages(Session(config, charset, input)))
  {
    hide ReadStartup, Login, AfterStartup, Framed, AuthenticationRequest, Welcome, IsSilent, DropSslRequest, IsStartupSize;
    WelcomeIsNotSilent(config);
    SslRequestReads(input);
    if LogsIn(config, charset, input) {
      LogsInOpens(config, charset, input);
    } else {
      OtherwiseSilent(config, charset, input);
    }
  }

  lemma WelcomeIsNotSilent(config: Config)
    ensures !IsSilent([AuthenticationRequest(3)] + Welcome(config))
    ensures IsSilent([])
  {
    hide Ascii;
    assert ([AuthenticationRequest(3)] + Welcome(config))[7].kind == 'Z';
  }

  lemma LogsInOpens(config: Config, charset: Charset, input: seq<Byte>)
    requires LogsIn(config, charset, input)
    ensures Session(config, charset, input).opening == [AuthenticationRequest(3)] + Welcome(config)
  {
    hide ReadStartup, Login, AfterStartup, Framed, AuthenticationRequest, Welcome, DropSslRequest;
    var startup, password, rest :|
      Login(config, charset, input, startup, password, rest)
      || Login(config, charset, DropSslRequest(input), startup, password, rest);
    SslRequestReads(input);
    if Login(config, charset, input, startup, password, rest) {
      LoginOpens(config, charset, false, input, startup, password, rest);
    } else {
      LoginOpens(config, charset, true, DropSslRequest(input), startup, password, rest);
      LoginHasSslRequest(config, charset, input, startup, password, rest);
    }
  }

  lemma LoginHasSslRequest(
    config: Config, charset: Charset, input: seq<Byte>, startup: seq<Byte>, password: seq<Byte>, rest: seq<Byte>)
    requires Login(config, charset, DropSslRequest(input), startup, password, rest)
    ensures Framed(SSL_REQUEST) <= input
  {
    hide Encoded, UserOf, DatabaseOf, CString, CredentialsMatch, DatabaseExists, IsProtocol3;
  }

  lemma OtherwiseSilent(config: Config, charset: Charset, input: seq<Byte>)
    requires !LogsIn(config, charset, input)
    ensures IsSilent(Messages(Session(config, charset, input))) && IsSilent(Session(config, charset, input).opening)
  {
    hide ReadStartup, Login, AfterStartup, Framed, AuthenticationRequest, Welcome, DropSslRequest, IsStartupSize;
    WelcomeIsNotSilent(config);
    SslRequestReads(input);
    var t := Session(config, charset, input);
    match ReadStartup(input)
    case None => assert Messages(t) == [];
    case Some((first, rest)) =>
      StartupIsFramed(input);
      if first != SSL_REQUEST {
        AfterStartupOpens(config, charset, false, first, rest);
        assert Messages(t) == t.opening;
      } else if ReadStartup(rest).Some? {
        StartupIsFramed(rest);
        AfterStartupOpens(config, charset, true, ReadStartup(rest).value.0, ReadStartup(rest).value.1);
        assert Messages(t) == t.opening;
      } else {
        assert Messages(t) == [];
      }
  }

  // ---------------------------------------------------------------------------
  // The gate, from what a client prints
  // ---------------------------------------------------------------------------

  /** Pair `k` is the first under a name whose value is text. */
  ghost predicate IsFirstUnder(pairs: seq<(Text, Text)>, name: string, charset: Charset, k: nat) {
    && k < |pairs| && pairs[k].0 == Ascii(name) && charset.utf8(pairs[k].1)
    && forall j :: 0 <= j < k ==> pairs[j].0 != Ascii(name) || !charset.utf8(pairs[j].1)
  }

  /** A client's parameter: the first readable value under its name, or the given one when there is none. */
  ghost predicate Means(pairs: seq<(Text, Text)>, name: string, charset: Charset, otherwise: Text, value: Text) {
    || (exists k: nat :: IsFirstUnder(pairs, name, charset, k) && value == pairs[k].1)
    || ((forall k: nat :: !IsFirstUnder(pairs, name, charset, k)) && value == otherwise)
  }

  lemma {:induction false} FindValueIsFirst(pairs: seq<(Text, Text)>, name: string, charset: Charset)
    ensures match FindValue(pairs, Ascii(name), charset.utf8)
            case Some(value) => exists k: nat :: IsFirstUnder(pairs, name, charset, k) && value == pairs[k].1
            case None => forall k: nat :: k < |pairs| ==> pairs[k].0 != Ascii(name) || !charset.utf8(pairs[k].1)
  {
    hide Ascii;
    if pairs != [] {
      FindValueIsFirst(pairs[1..], name, charset);
      if pairs[0].0 == Ascii(name) && charset.utf8(pairs[0].1) {
        assert IsFirstUnder(pairs, name, charset, 0);
      } else if FindValue(pairs[1..], Ascii(name), charset.utf8).Some? {
        var k: nat :| IsFirstUnder(pairs[1..], name, charset, k) && FindValue(pairs[1..], Ascii(name), charset.utf8).value == pairs[1..][k].1;
        forall j | 0 <= j < k + 1
          ensures pairs[j].0 != Ascii(name) || !charset.utf8(pairs[j].1)
        {
          assert j > 0 ==> pairs[j] == pairs[1..][j - 1];
        }
        assert IsFirstUnder(pairs, name, charset, k + 1);
      } else {
        forall k: nat | k < |pairs|
          ensures pairs[k].0 != Ascii(name) || !charset.utf8(pairs[k].1)
        {
          assert k > 0 ==> pairs[k] == pairs[1..][k - 1];
        }
      }
    }
  }

  lemma FirstIsUnique(pairs: seq<(Text, Text)>, name: string, charset: Charset, j: nat, k: nat)
    requires IsFirstUnder(pairs, name, charset, j) && IsFirstUnder(pairs, name, charset, k)
    ensures j == k
  {
  }

  lemma MeansIsFound(pairs: seq<(Text, Text)>, name: string, charset: Charset, otherwise: Text, value: Text)
    requires Means(pairs, name, charset, otherwise, value)
    ensures var found := FindValue(pairs, Ascii(name), charset.utf8);
            value == if found.Some? then found.value else otherwise
  {
    hide Ascii, FindValue;
    FindValueIsFirst(pairs, name, charset);
    var found := FindValue(pairs, Ascii(name), charset.utf8);
    if found.Some? {
      var k: nat :| IsFirstUnder(pairs, name, charset, k) && found.value == pairs[k].1;
      forall j: nat | IsFirstUnder(pairs, name, charset, j)
        ensures j == k
      {
        FirstIsUnique(pairs, name, charset, j, k);
      }
    } else {
      NoneIsFirst(pairs, name, charset);
    }
  }

  lemma NoneIsFirst(pairs: seq<(Text, Text)>, name: string, charset: Charset)
    requires forall k: nat :: k < |pairs| ==> pairs[k].0 != Ascii(name) || !charset.utf8(pairs[k].1)
    ensures forall k: nat :: !IsFirstUnder(pairs, name, charset, k)
  {
    hide Ascii;
  }

  lemma ParametersMean(pairs: seq<(Text, Text)>, charset: Charset, user: Text, database: Text)
    requires PlainPairs(pairs)
    requires Means(pairs, "user", charset, [], user) && Means(pairs, "database", charset, user, database)
    ensures UserOf(PROTOCOL_3 + Printed(pairs), charset) == user
    ensures DatabaseOf(PROTOCOL_3 + Printed(pairs), charset) == database
  {
    hide Ascii, Means, FindValue, StartupParameter, Printed, PlainPairs;
    StartupParameterInvertsPrinting(pairs, Ascii("user"), charset.utf8);
    StartupParameterInvertsPrinting(pairs, Ascii("database"), charset.utf8);
    MeansIsFound(pairs, "user", charset, [], user);
    MeansIsFound(pairs, "database", charset, user, database);
  }

  /** A client's first bytes: perhaps an encryption request, the startup packet with its parameters, the password. */
  function PrintedLogin(encrypts: bool, pairs: seq<(Text, Text)>, password: Text): seq<Byte> {
    (if encrypts then Framed([4, 210, 22, 47]) else [])
    + (Framed([0, 3, 0, 0] + Printed(pairs)) + Encoded(Message('p', password + [0])))
  }

  /** What the session says to a login, from the printed user, database and password alone. */
  function LoginAnswer(config: Config, user: Text, database: Text, password: Text): seq<Message> {
    if !(config.credentials.Some? && (user, password) in config.credentials.value) then
      [AuthenticationRequest(3), ErrorResponse("28P01", Ascii("password authentication failed"))]
    else if config.databases.Some? && database !in config.databases.value then
      [AuthenticationRequest(3), ErrorResponse("3D000", Ascii("database \"") + database + Ascii("\" does not exist"))]
    else [AuthenticationRequest(3)] + Welcome(config)
  }

  /**
   A printed login opens the session exactly when the pair of its user, the first readable value under "user", and its
   password is configured, and its database, the first readable value under "database" or else the user, is configured
   or none is; otherwise it is told which of the two failed.
   */
  lemma LoginOpensExactly(
    config: Config, charset: Charset, encrypts: bool, pairs: seq<(Text, Text)>, user: Text, database: Text, password: Text, rest: seq<Byte>)
    requires PlainPairs(pairs) && IsStartupSize([0, 3, 0, 0] + Printed(pairs))
    requires Means(pairs, "user", charset, [], user) && Means(pairs, "database", charset, user, database)
    requires charset.utf8(password) && |password| + 5 <= 65536
    ensures Session(config, charset, PrintedLogin(encrypts, pairs, password) + rest).opening
         == LoginAnswer(config, user, database, password)
    ensures Session(config, charset, PrintedLogin(encrypts, pairs, password) + rest).declined == encrypts
    ensures Session(config, charset, PrintedLogin(encrypts, pairs, password) + rest).opening == [AuthenticationRequest(3)] + Welcome(config)
       <==> config.credentials.Some? && (user, password) in config.credentials.value
            && (config.databases.None? || database in config.databases.value)
  {
    hide ReadStartup, ReadMessage, Framed, Encoded, Printed, Welcome, UserOf, DatabaseOf, Means, Turns, PlainPairs, ErrorResponse,
      AuthenticationRequest, CredentialsMatch, DatabaseExists, LoginAnswer;
    var startup, message := PROTOCOL_3 + Printed(pairs), Encoded(Message('p', password + [0]));
    var login := Framed(startup) + (message + rest);
    assert startup[..4] == PROTOCOL_3 && startup != SSL_REQUEST by {
      assert startup[0] == 0;
    }
    StartupReads(startup, message + rest);
    FrontendMessageReads(Message('p', password + [0]), rest);
    ParametersMean(pairs, charset, user, database);
    assert CString(password + [0]) == password;
    if encrypts {
      assert PrintedLogin(encrypts, pairs, password) + rest == Framed(SSL_REQUEST) + login;
      StartupReads(SSL_REQUEST, login);
    } else {
      assert PrintedLogin(encrypts, pairs, password) + rest == login;
    }
    PasswordDecides(config, charset, encrypts, startup, message + rest, user, database, password, rest);
    WelcomeIsLong(config);
  }

  lemma PasswordDecides(
    config: Config, charset: Charset, declined: bool, startup: seq<Byte>, input: seq<Byte>, user: Text, database: Text, password: Text, rest: seq<Byte>)
    requires IsProtocol3(startup) && UserOf(startup, charset) == user && DatabaseOf(startup, charset) == database
    requires ReadMessage(input) == Incoming(KindByte('p'), password + [0], rest) && CString(password + [0]) == password
    requires charset.utf8(password)
    ensures AfterStartup(config, charset, declined, startup, input).opening == LoginAnswer(config, user, database, password)
    ensures AfterStartup(config, charset, declined, startup, input).declined == declined
  {
    hide ReadMessage, Welcome, UserOf, DatabaseOf, Turns, ErrorResponse, AuthenticationRequest, CString, Ascii, IsProtocol3;
  }

  lemma WelcomeIsLong(config: Config)
    ensures |Welcome(config)| == 7
    ensures forall user, database, password ::
              LoginAnswer(config, user, database, password) == [AuthenticationRequest(3)] + Welcome(config) <==>
              config.credentials.Some? && (user, password) in config.credentials.value
              && (config.databases.None? || database in config.databases.value)
  {
    hide Ascii, ErrorResponse, AuthenticationRequest;
  }

  /** A result of one row: description of a text column, row, completion, ready; a client reads the value from the row. */
  predicate TellsRow(group: seq<Message>, column: string, value: Text, tag: string) {
    && |group| == 4
    && group[0] == Message('T', [0, 1] + Ascii(column)
                                + [0, 0, 0, 0, 0, 0, 0, 0, 0, 0, 25, 0xff, 0xff, 0xff, 0xff, 0xff, 0xff, 0, 0])
    && group[1].kind == 'D' && (|value| < 0x1_0000_0000 ==> ReadRow(group[1].body) == Some(value))
    && group[2] == Message('C', Ascii(tag) + [0]) && group[3] == Message('Z', [73])
  }

  lemma ResultTells(column: string, value: Text, tag: string)
    ensures TellsRow(QueryResult(column, value, tag), column, value, tag)
  {
    hide ReadRow, DataRow, Ascii;
    OneColumn(column);
    RowReads(value);
    RowIsData(value);
    ReadyIsIdle();
  }

  lemma ReadyIsIdle()
    ensures ReadyForQuery == Message('Z', [73])
  {
  }

  lemma RowIsData(value: Text)
    ensures DataRow(value).kind == 'D'
  {
  }

  lemma OneColumn(column: string)
    ensures RowDescription(Ascii(column))
         == Message('T', [0, 1] + Ascii(column) + [0, 0, 0, 0, 0, 0, 0, 0, 0, 0, 25, 0xff, 0xff, 0xff, 0xff, 0xff, 0xff, 0, 0])
  {
    hide Ascii, ToBigEndian;
    SmallNumbers(25);
    SmallNumbers(1);
    SmallNumbers(0);
  }

  lemma SmallNumbers(n: nat)
    requires n < 0x100
    ensures ToBigEndian(n, 2) == [0, n] && ToBigEndian(n, 4) == [0, 0, 0, n]
  {
    hide ToBigEndian;
    BigEndianStep(n, 4);
    BigEndianStep(n, 2);
    BigEndianStep(n, 1);
    BigEndianStep(0, 3);
    BigEndianStep(0, 2);
    BigEndianStep(0, 1);
  }

  lemma BigEndianStep(n: nat, width: nat)
    requires width > 0
    ensures ToBigEndian(n, width) == ToBigEndian(n / 0x100, width - 1) + [n % 0x100]
    ensures ToBigEndian(n, 0) == []
  {
  }

  /** An error of the given code and message, and nothing else. */
  predicate TellsError(m: Message, code: string, message: string) {
    m.kind == 'E' && m.body == Ascii("SERROR") + [0] + Ascii("VERROR") + [0] + Ascii("C" + code) + [0] + Ascii("M" + message) + [0, 0]
  }

  lemma ErrorTells(code: string, message: string)
    ensures TellsError(ErrorResponse(code, Ascii(message)), code, message)
  {
    assert Ascii("C" + code) == Ascii("C") + Ascii(code) && Ascii("M" + message) == Ascii("M") + Ascii(message);
  }

  /** No configured query normalises to this one. */
  predicate Unanswered(config: Config, charset: Charset, query: Text) {
    config.queryResponses.Some? ==>
      forall r :: r in config.queryResponses.value ==> charset.normalize(r.0) != charset.normalize(query)
  }

  lemma {:induction false} NoResponse(responses: seq<(Text, Text)>, normalized: Text, charset: Charset)
    requires forall r :: r in responses ==> charset.normalize(r.0) != normalized
    ensures FindResponse(responses, normalized, charset).None?
  {
    if responses != [] {
      assert responses[0] in responses;
      NoResponse(responses[1..], normalized, charset);
    }
  }

  /**
   Every other query: the two built-in ones tell the configured version or the default one, a blank one gets the empty
   reply, any other and any message that is no query gets an error, and each ends ready for the next.
   */
  lemma OtherQueriesAreAnswered(config: Config, charset: Charset, kind: Byte, body: seq<Byte>, query: Text)
    requires query == if body != [] && body[|body| - 1] == 0 then body[..|body| - 1] else body
    ensures var group, normalized := Group(config, charset, kind, body), charset.normalize(query);
            var version := if config.serverVersion.Some? then config.serverVersion.value else Ascii("16.2-seclab");
            if kind != 'Q' as int then
              |group| == 2 && TellsError(group[0], "0A000", "extended query protocol is not supported by SecLab simulation")
              && group[1] == Message('Z', [73])
            else if normalized == Ascii("show server_version") then TellsRow(group, "server_version", version, "SHOW")
            else if normalized == Ascii("select version()") then
              TellsRow(group, "version", Ascii("PostgreSQL ") + version + Ascii(" on x86_64-pc-linux-gnu, compiled by SecLab simulation"),
                       "SELECT 1")
            else if !Unanswered(config, charset, query) then true
            else if charset.blank(query) then group == [Message('I', []), Message('Z', [73])]
            else |group| == 2 && TellsError(group[0], "0A000", "query is not supported by SecLab simulation")
                 && group[1] == Message('Z', [73])
  {
    hide Ascii, QueryResult, ErrorResponse, TellsRow, TellsError, FindResponse;
    ReadyIsIdle();
    ErrorTells("0A000", "extended query protocol is not supported by SecLab simulation");
    ErrorTells("0A000", "query is not supported by SecLab simulation");
    ResultTells("server_version", Version(config), "SHOW");
    ResultTells("version", VersionText(config), "SELECT 1");
    if config.queryResponses.Some? && Unanswered(config, charset, query) {
      NoResponse(config.queryResponses.value, charset.normalize(query), charset);
    }
  }

  /** A query is answered with the first configured response whose query normalises alike, in the result's one row. */
  lemma ConfiguredQueryIsAnswered(config: Config, charset: Charset, query: Text, k: nat)
    requires config.queryResponses.Some? && k < |config.queryResponses.value| && !IsBuiltIn(charset.normalize(query))
    requires charset.normalize(config.queryResponses.value[k].0) == charset.normalize(query)
    requires forall j :: 0 <= j < k ==> charset.normalize(config.queryResponses.value[j].0) != charset.normalize(query)
    ensures TellsRow(QueryGroup(config, charset, query), "result", config.queryResponses.value[k].1, "SELECT 1")
  {
    hide Ascii, FindResponse, TellsRow, QueryResult;
    FirstResponse(config.queryResponses.value, charset.normalize(query), charset, k);
    ResultTells("result", config.queryResponses.value[k].1, "SELECT 1");
  }

  /** The welcome: authentication done, the configured version among the parameters, and ready. */
  lemma WelcomeTells(config: Config)
    ensures var welcome := Welcome(config);
            var version := if config.serverVersion.Some? then config.serverVersion.value else Ascii("16.2-seclab");
            && |welcome| == 7
            && welcome[0] == Message('R', [0, 0, 0, 0])
            && welcome[1] == Message('S', Ascii("server_version") + [0] + version + [0])
            && welcome[2] == Message('S', Ascii("server_encoding") + [0] + Ascii("UTF8") + [0])
            && welcome[3] == Message('S', Ascii("client_encoding") + [0] + Ascii("UTF8") + [0])
            && welcome[4] == Message('S', Ascii("DateStyle") + [0] + Ascii("ISO, MDY") + [0])
            && welcome[5] == Message('K', [0, 0, 0, 1, 0x53, 0x45, 0x43, 0x4c])
            && welcome[6] == Message('Z', [73])
  {
    hide Ascii, ToBigEndian;
    ReadyIsIdle();
    SmallNumbers(0);
    SmallNumbers(1);
    Secl();
  }

  lemma Secl()
    ensures ToBigEndian(0x5345_434c, 4) == [0x53, 0x45, 0x43, 0x4c]
  {
    hide ToBigEndian;
    BigEndianStep(0x5345_434c, 4);
    BigEndianStep(0x53_4543, 3);
    BigEndianStep(0x5345, 2);
    BigEndianStep(0x53, 1);
  }

  /** Encryption is declined exactly for the input that begins by asking for it. */
  lemma DeclinesExactly(config: Config, charset: Charset, input: seq<Byte>)
    ensures Session(config, charset, input).declined <==> Framed([4, 210, 22, 47]) <= input
  {
    hide ReadStartup, ReadMessage, Framed, Turns, UserOf, DatabaseOf, Welcome, Ascii;
    SslRequestReads(input);
  }

  /**
   Every other opening: a startup of another version is told so, one without a password message is asked for it, and
   anything else in its place is refused. What is cut off breaks the session, a client that closes in order does not.
   */
  lemma OtherOpeningsAreRefused(
    config: Config, charset: Charset, startup: seq<Byte>, rest: seq<Byte>, m: Message, more: seq<Byte>)
    requires IsStartupSize(startup) && startup != [4, 210, 22, 47]
    requires |m.body| + 4 <= 65536 && KindByte(m.kind) != 'p' as int
    ensures var t := Session(config, charset, Framed(startup) + rest);
            && (!([0, 3, 0, 0] <= startup) ==>
                 t.groups == [] && |t.opening| == 1 && TellsError(t.opening[0], "0A000", "unsupported protocol version") && t.outcome == Finished)
            && ([0, 3, 0, 0] <= startup && rest == [] ==> t == Transcript(false, [Message('R', [0, 0, 0, 3])], [], Finished))
            && ([0, 3, 0, 0] <= startup && 0 < |rest| < 5 ==> t == Transcript(false, [Message('R', [0, 0, 0, 3])], [], Broken))
            && ([0, 3, 0, 0] <= startup && rest == Encoded(m) + more ==>
                 && t.groups == [] && t.outcome == Finished && |t.opening| == 2 && t.opening[0] == Message('R', [0, 0, 0, 3])
                 && TellsError(t.opening[1], "08P01", "password message expected"))
  {
    hide ReadStartup, Framed, Turns, UserOf, DatabaseOf, Welcome, Ascii, Encoded, BigEndian, TellsError, ErrorResponse;
    StartupReads(startup, rest);
    ErrorTells("0A000", "unsupported protocol version");
    ErrorTells("08P01", "password message expected");
    AskForPassword();
    if rest == Encoded(m) + more {
      FrontendMessageReads(m, more);
    }
  }

  lemma AskForPassword()
    ensures AuthenticationRequest(3) == Message('R', [0, 0, 0, 3])
  {
    hide ToBigEndian;
    SmallNumbers(3);
  }

  // ---------------------------------------------------------------------------
  // The output splits
  // ---------------------------------------------------------------------------

  const MODEST: nat := 0x8000_0000

  /** No configured text comes near the 32-bit length limit. */
  predicate IsModest(config: Config) {
    && |Version(config)| <= MODEST
    && (config.queryResponses.Some? ==> forall r :: r in config.queryResponses.value ==> |r.1| <= MODEST)
  }

  ghost predicate AllFit(messages: seq<Message>) {
    forall m :: m in messages ==> Fits(m)
  }

  lemma {:induction false} FieldsAreShort(bytes: seq<Byte>)
    ensures forall field :: field in Fields(bytes) ==> |field| <= |bytes|
  {
    if bytes != [] {
      FieldsAreShort(bytes[1..]);
      var rest := Fields(bytes[1..]);
      assert rest == [rest[0]] + rest[1..];
    }
  }

  lemma {:induction false} ValuesAreFields(fields: seq<seq<Byte>>, name: Text, utf8: Text -> bool)
    ensures var r := FindValue(Pairs(fields), name, utf8); r.Some? ==> r.value in fields
  {
    if |fields| >= 2 {
      ValuesAreFields(fields[2..], name, utf8);
      assert Pairs(fields)[1..] == Pairs(fields[2..]);
    }
  }

  lemma {:induction false} LeadingAreFields(fields: seq<seq<Byte>>)
    ensures forall field :: field in LeadingNonEmpty(fields) ==> field in fields
  {
    if fields != [] && fields[0] != [] {
      LeadingAreFields(fields[1..]);
      assert fields == [fields[0]] + fields[1..];
    }
  }

  lemma ParametersAreShort(startup: seq<Byte>, charset: Charset)
    ensures |DatabaseOf(startup, charset)| <= |startup|
  {
    hide Fields, Pairs, LeadingNonEmpty, FindValue, Ascii;
    if IsProtocol3(startup) {
      FieldsAreShort(startup[4..]);
      LeadingAreFields(Fields(startup[4..]));
      ValuesAreFields(LeadingNonEmpty(Fields(startup[4..])), Ascii("user"), charset.utf8);
      ValuesAreFields(LeadingNonEmpty(Fields(startup[4..])), Ascii("database"), charset.utf8);
    }
  }

  lemma ErrorFits(code: string, message: Text)
    requires |code| + |message| <= MODEST
    ensures Fits(ErrorResponse(code, message))
  {
    hide Ascii;
  }

  lemma ResultFits(column: string, value: Text, tag: string)
    requires |column| < 256 && |value| <= MODEST + 256 && |tag| < 256
    ensures AllFit(QueryResult(column, value, tag))
  {
    hide Ascii;
  }

  lemma {:induction false} ResponsesAreModest(responses: seq<(Text, Text)>, normalized: Text, charset: Charset)
    requires forall r :: r in responses ==> |r.1| <= MODEST
    ensures var r := FindResponse(responses, normalized, charset); r.Some? ==> |r.value| <= MODEST
  {
    if responses != [] {
      assert responses[0] in responses;
      ResponsesAreModest(responses[1..], normalized, charset);
    }
  }

  lemma GroupFits(config: Config, charset: Charset, kind: Byte, body: seq<Byte>)
    requires IsModest(config)
    ensures AllFit(Group(config, charset, kind, body))
  {
    hide Ascii, CString, QueryResult, ErrorResponse, Version, FindResponse;
    var query := CString(body);
    ErrorFits("0A000", Ascii("query is not supported by SecLab simulation"));
    ErrorFits("0A000", Ascii("extended query protocol is not supported by SecLab simulation"));
    ResultFits("server_version", Version(config), "SHOW");
    ResultFits("version", VersionText(config), "SELECT 1");
    if config.queryResponses.Some? {
      ResponsesAreModest(config.queryResponses.value, charset.normalize(query), charset);
    }
    var configured := ConfiguredQueryResponse(config, query, charset);
    ResultFits("result", if configured.Some? then configured.value else [], "SELECT 1");
  }

  lemma {:induction false} TurnsFit(config: Config, charset: Charset, input: seq<Byte>)
    requires IsModest(config)
    ensures AllFit(Flatten(Turns(config, charset, input).0))
    decreases |input|
  {
    hide ReadMessage, Group, IsModest, Turns, Fits;
    TurnsStep(config, charset, input);
    var m := ReadMessage(input);
    if m.Incoming? {
      GroupFits(config, charset, m.kind, m.body);
      TurnsFit(config, charset, m.rest);
      FlattenCons(Group(config, charset, m.kind, m.body), Turns(config, charset, m.rest).0);
    }
  }

  lemma FlattenCons(group: seq<Message>, groups: seq<seq<Message>>)
    ensures Flatten([group] + groups) == group + Flatten(groups)
  {
    assert ([group] + groups)[1..] == groups;
  }

  lemma WelcomeFits(config: Config)
    requires IsModest(config)
    ensures AllFit([AuthenticationRequest(3)] + Welcome(config))
  {
    hide Ascii, Version;
  }

  lemma AfterStartupFits(config: Config, charset: Charset, declined: bool, startup: seq<Byte>, rest: seq<Byte>)
    requires IsModest(config) && IsStartupSize(startup)
    ensures AllFit(Messages(AfterStartup(config, charset, declined, startup, rest)))
  {
    hide Ascii, ReadMessage, Turns, Welcome, ErrorResponse, CredentialsMatch, UserOf, DatabaseOf, DatabaseExists, CString,
      IsProtocol3, Version, Flatten, AuthenticationRequest, Fits;
    ParametersAreShort(startup, charset);
    ErrorFits("0A000", Ascii("unsupported protocol version"));
    ErrorFits("08P01", Ascii("password message expected"));
    ErrorFits("28P01", Ascii("password authentication failed"));
    ErrorFits("3D000", Ascii("database \"") + DatabaseOf(startup, charset) + Ascii("\" does not exist"));
    WelcomeFits(config);
    assert Fits(AuthenticationRequest(3)) by {
      assert AuthenticationRequest(3) in [AuthenticationRequest(3)] + Welcome(config);
    }
    EmptyFlatten();
    var m := ReadMessage(rest);
    if m.Incoming? {
      TurnsFit(config, charset, m.rest);
    }
  }

  lemma EmptyFlatten()
    ensures Flatten([]) == []
  {
  }

  /**
   Whatever a client sends, the bytes of a session, after the single `N` that an encryption request gets, split into
   exactly its messages exactly when each has a length that 32 bits can say; with no configured text above 2^31 bytes
   all have.
   */
  lemma SessionSplits(config: Config, charset: Charset, input: seq<Byte>)
    ensures var asked := Framed([4, 210, 22, 47]) <= input;
            var messages := Messages(Session(config, charset, input));
            var output := Output(Session(config, charset, input));
            && (asked ==> output != [] && output[0] == 78)
            && (Split(if asked then output[1..] else output) == Some(Parts(messages)) <==> AllFit(messages))
            && (IsModest(config) ==> AllFit(messages))
  {
    hide Session, Messages, Framed, Split, EncodedAll, Parts, IsModest;
    var t := Session(config, charset, input);
    DeclinesExactly(config, charset, input);
    if t.declined {
      assert Output(t)[1..] == EncodedAll(Messages(t));
    } else {
      assert Output(t) == EncodedAll(Messages(t));
    }
    SplitInvertsEncoding(Messages(t));
    if IsModest(config) {
      SessionFits(config, charset, input);
    }
  }

  lemma SessionFits(config: Config, charset: Charset, input: seq<Byte>)
    requires IsModest(config)
    ensures AllFit(Messages(Session(config, charset, input)))
  {
    hide ReadStartup, AfterStartup, Split, EncodedAll, Parts, IsModest, Flatten;
    EmptyFlatten();
    var t := Session(config, charset, input);
    match ReadStartup(input) {
      case None =>
      case Some((first, rest)) =>
        StartupIsFramed(input);
        if first != SSL_REQUEST {
          AfterStartupFits(config, charset, false, first, rest);
        } else if ReadStartup(rest).Some? {
          StartupIsFramed(rest);
          AfterStartupFits(config, charset, true, ReadStartup(rest).value.0, ReadStartup(rest).value.1);
        }
    }
    assert AllFit(Messages(t));
  }

  // ---------------------------------------------------------------------------
  // The connection
  // ---------------------------------------------------------------------------

  /** A client connection: the bytes still to come from the peer and the bytes sent to it. */
  class Connection {
    var input: seq<Byte>
    var output: seq<Byte>

    constructor (input: seq<Byte>)
      ensures this.input == input && output == []
    {
      this.input, output := input, [];
    }

    method ReadStartupPacket() returns (packet: Option<seq<Byte>>)
      modifies this`input
      ensures match ReadStartup(old(input))
              case None => packet == None
              case Some((p, rest)) => packet == Some(p) && input == rest
    {
      match ReadStartup(input) {
        case None => packet := None;
        case Some((p, rest)) => packet, input := Some(p), rest;
      }
    }

    method ReadFrontendMessage() returns (r: Incoming)
      modifies this`input
      ensures r == ReadMessage(old(input))
      ensures r.Incoming? ==> input == r.rest
    {
      r := ReadMessage(input);
      if r.Incoming? {
        input := r.rest;
      }
    }

    method Write(m: Message)
      modifies this`output
      ensures output == old(output) + Encoded(m)
    {
      output := output + Encoded(m);
    }

    method WriteAll(messages: seq<Message>)
      modifies this`output
      ensures output == old(output) + EncodedAll(messages)
    {
      hide Encoded;
      var i := 0;
      assert messages[..0] == [];
      while i < |messages|
        invariant i <= |messages|
        invariant output == old(output) + EncodedAll(messages[..i])
      {
        Write(messages[i]);
        EncodedAppend(messages[..i], messages[i]);
        InitAndLast(messages, i);
        i := i + 1;
      }
      assert messages[..|messages|] == messages;
    }

    method ServeSession(config: Config, charset: Charset) returns (outcome: Outcome)
      modifies this
      ensures outcome == Session(config, charset, old(input)).outcome
      ensures output == old(output) + Output(Session(config, charset, old(input)))
    {
      hide Turns, Encoded, EncodedAll, Flatten, Group, Welcome, AuthenticationRequest, ErrorResponse, UserOf, DatabaseOf, Ascii,
        KindByte, CString, CredentialsMatch, DatabaseExists, IsProtocol3, ReadMessage, ReadStartup;
      ghost var sent := output;
      ghost var whole := Session(config, charset, input);
      NothingSent(sent);
      EmptyOutput(whole);
      var startup := ReadStartupPacket();
      if startup.None? {
        return Broken;
      }
      if startup.value == SSL_REQUEST {
        output := output + [KindByte('N')];
        startup := ReadStartupPacket();
        if startup.None? {
          return Broken;
        }
      }
      outcome := Converse(config, charset, startup.value, whole.declined);
      assert output == sent + (if whole.declined then [KindByte('N')] else []) + EncodedAll(Messages(whole));
    }

    /** The session from the startup packet on. */
    method Converse(config: Config, charset: Charset, startup: seq<Byte>, ghost declined: bool) returns (outcome: Outcome)
      modifies this
      ensures var t := AfterStartup(config, charset, declined, startup, old(input));
              outcome == t.outcome && output == old(output) + EncodedAll(Messages(t))
    {
      hide Turns, Encoded, EncodedAll, Flatten, Group, Welcome, AuthenticationRequest, ErrorResponse, UserOf, DatabaseOf, Ascii,
        KindByte, CString, CredentialsMatch, DatabaseExists, IsProtocol3, ReadMessage;
      ghost var t := AfterStartup(config, charset, declined, startup, input);
      NoGroups(t.opening);
      if !IsProtocol3(startup) {
        WriteAll([ErrorResponse("0A000", Ascii("unsupported protocol version"))]);
        return Finished;
      }
      ghost var sent := output;
      Write(AuthenticationRequest(3));
      EncodedOne(AuthenticationRequest(3));
      var incoming := ReadFrontendMessage();
      match incoming
      case EndOfInput => return Finished;
      case Malformed => return Broken;
      case Incoming(kind, body, rest) =>
        if kind != KindByte('p') {
          Refuse(ErrorResponse("08P01", Ascii("password message expected")));
          return Finished;
        }
        var password := CString(body);
        if !charset.utf8(password) {
          return Broken;
        }
        if !CredentialsMatch(config, UserOf(startup, charset), password) {
          Refuse(ErrorResponse("28P01", Ascii("password authentication failed")));
          return Finished;
        }
        if !DatabaseExists(config, DatabaseOf(startup, charset)) {
          Refuse(MissingDatabase(DatabaseOf(startup, charset)));
          return Finished;
        }
        WriteAll(Welcome(config));
        EncodedConcat([AuthenticationRequest(3)], Welcome(config));
        Associative(sent, EncodedAll([AuthenticationRequest(3)]), EncodedAll(Welcome(config)));
        outcome := AnswerMessages(config, charset);
        EncodedConcat(t.opening, Flatten(t.groups));
        Associative(sent, EncodedAll(t.opening), EncodedAll(Flatten(t.groups)));
    }

    /** Sends an error after the authentication request. */
    method Refuse(error: Message)
      modifies this`output
      ensures output == old(output) + Encoded(error)
      ensures forall sent :: old(output) == sent + EncodedAll([AuthenticationRequest(3)]) ==>
                output == sent + EncodedAll([AuthenticationRequest(3), error])
    {
      hide Encoded, EncodedAll;
      Write(error);
      EncodedAppend([AuthenticationRequest(3)], error);
      assert [AuthenticationRequest(3)] + [error] == [AuthenticationRequest(3), error];
    }

    method AnswerMessages(config: Config, charset: Charset) returns (outcome: Outcome)
      modifies this
      ensures var (groups, end) := Turns(config, charset, old(input));
              outcome == end && output == old(output) + EncodedAll(Flatten(groups))
    {
      hide Turns, EncodedAll, Encoded, Flatten, Group, KindByte, CString, ReadMessage;
      ghost var begun := output;
      ghost var whole := Turns(config, charset, input);
      ghost var done: seq<seq<Message>> := [];
      NothingSent(begun);
      WholeSlice(whole.0);
      assert done + whole.0 == whole.0;
      while true
        invariant output == begun + EncodedAll(Flatten(done))
        invariant whole == (done + Turns(config, charset, input).0, Turns(config, charset, input).1)
        decreases |input|
      {
        TurnsStep(config, charset, input);
        assert done + [] == done;
        var incoming := ReadFrontendMessage();
        match incoming {
          case EndOfInput =>
            return Finished;
          case Malformed =>
            return Broken;
          case Incoming(kind, body, rest) =>
            if kind == KindByte('X') {
              return Finished;
            }
            if kind == KindByte('Q') && !charset.utf8(CString(body)) {
              return Broken;
            }
            var group := Group(config, charset, kind, body);
            WriteAll(group);
            FlattenAppend(done, group);
            EncodedConcat(Flatten(done), group);
            Associative(begun, EncodedAll(Flatten(done)), EncodedAll(group));
            Associative(done, [group], Turns(config, charset, rest).0);
            done := done + [group];
        }
      }
    }
  }

  lemma EmptyOutput(t: Transcript)
    ensures t.opening == [] && t.groups == [] ==> EncodedAll(Messages(t)) == []
    ensures [] + EncodedAll(Messages(t)) == EncodedAll(Messages(t))
    ensures EncodedAll(Messages(t)) == [] ==> Output(t) == if t.declined then [KindByte('N')] else []
  {
  }

  lemma EncodedOne(m: Message)
    ensures EncodedAll([m]) == Encoded(m)
  {
    assert Encoded(m) + [] == Encoded(m);
  }

  lemma NothingSent(sent: seq<Byte>)
    ensures EncodedAll([]) == [] && Flatten([]) == [] && sent + [] == sent
  {
  }

  lemma NoGroups(opening: seq<Message>)
    ensures opening + Flatten([]) == opening
  {
  }

  lemma EncodedAppend(messages: seq<Message>, m: Message)
    ensures EncodedAll(messages + [m]) == EncodedAll(messages) + Encoded(m)
  {
    EncodedConcat(messages, [m]);
    assert Encoded(m) + [] == Encoded(m);
  }

  lemma {:induction false} FlattenAppend(groups: seq<seq<Message>>, group: seq<Message>)
    ensures Flatten(groups + [group]) == Flatten(groups) + group
  {
    if groups == [] {
      assert groups + [group] == [group];
    } else {
      FlattenAppend(groups[1..], group);
      TailOfConcat(groups, [group]);
      assert (groups + [group])[0] == groups[0];
    }
  }
}
