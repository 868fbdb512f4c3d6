/**
 MySQL packets and the client's handshake response. Text is its bytes; `utf8` says which byte strings are text.
 */
module Mysql {
  import opened Wrappers
  import opened Bytes

  const MAX_PACKET_SIZE: nat := 65536

  // ---------------------------------------------------------------------------
  // Packets
  // ---------------------------------------------------------------------------

  /** The length on three bytes, cut off above them, then the sequence number and the payload. */
  function Packet(sequence: Byte, payload: seq<Byte>): seq<Byte> {
    ToLittleEndian(|payload| % 0x100_0000, 3) + [sequence] + payload
  }

  datatype Incoming = EndOfInput | Malformed | Incoming(sequence: Byte, payload: seq<Byte>, rest: seq<Byte>)

  function ReadPacket(input: seq<Byte>): Incoming {
    if input == [] then EndOfInput
    else if |input| < 3 || LittleEndian(input[..3]) > MAX_PACKET_SIZE then Malformed
    else
      var length := LittleEndian(input[..3]);
      if |input| < 4 + length then Malformed else Incoming(input[3], input[4..4 + length], input[4 + length..])
  }

  /** A packet reads back exactly when its payload is within the limit, whatever follows it. */
  lemma PacketRoundTrip(sequence: Byte, payload: seq<Byte>, rest: seq<Byte>)
    ensures ReadPacket(Packet(sequence, payload) + rest) == Incoming(sequence, payload, rest) <==> |payload| <= 65536
  {
    hide LittleEndian, ToLittleEndian, Pow256;
    var length := |payload| % 0x100_0000;
    var prefix := ToLittleEndian(length, 3);
    Pow256Values();
    LittleEndianRoundTrip(length, 3);
    var input := Packet(sequence, payload) + rest;
    assert input == prefix + ([sequence] + (payload + rest));
    assert input[..3] == prefix && input[3] == sequence;
    if |payload| <= MAX_PACKET_SIZE {
      assert input[4..4 + length] == payload && input[4 + length..] == rest;
    }
  }

  // ---------------------------------------------------------------------------
  // Fields of the handshake response
  // ---------------------------------------------------------------------------

  /** A zero-terminated string at an offset that may lie past the end. */
  function CStringAt(input: seq<Byte>, offset: nat, utf8: Text -> bool): Read<Text> {
    if offset > |input| then Fail
    else
      match Position(input[offset..], 0)
      case None => Fail
      case Some(k) => if utf8(input[offset..offset + k]) then Done(input[offset..offset + k], offset + k + 1) else Fail
  }

  function LenencAt(input: seq<Byte>, offset: nat): Read<nat> {
    if offset >= |input| then Fail
    else if input[offset] <= 250 then Done(input[offset], offset + 1)
    else if input[offset] != 0xfc || offset + 3 > |input| then Fail
    else Done(LittleEndian(input[offset + 1..offset + 3]), offset + 3)
  }

  predicate HasFlag(capabilities: nat, flag: nat)
    requires flag > 0
  {
    capabilities / flag % 2 == 1
  }

  /** The four flags are bits 3, 9, 15 and 21 of the capabilities. */
  lemma FlagsAreTheirBits(capabilities: nat)
    ensures HasFlag(capabilities, 0x08) <==> capabilities % 0x10 >= 0x08
    ensures HasFlag(capabilities, 0x0200) <==> capabilities % 0x0400 >= 0x0200
    ensures HasFlag(capabilities, 0x8000) <==> capabilities % 0x1_0000 >= 0x8000
    ensures HasFlag(capabilities, 0x0020_0000) <==> capabilities % 0x0040_0000 >= 0x0020_0000
  {
    hide HasFlag;
    Bit3(capabilities);
    Bit9(capabilities);
    Bit15(capabilities);
    Bit21(capabilities);
  }

  lemma Bit3(n: nat)
    ensures HasFlag(n, 0x08) <==> n % 0x10 >= 0x08
  {
    assert n / 0x08 == 2 * (n / 0x10) + (if n % 0x10 >= 0x08 then 1 else 0);
  }

  lemma Bit9(n: nat)
    ensures HasFlag(n, 0x0200) <==> n % 0x0400 >= 0x0200
  {
    assert n / 0x0200 == 2 * (n / 0x0400) + (if n % 0x0400 >= 0x0200 then 1 else 0);
  }

  lemma Bit15(n: nat)
    ensures HasFlag(n, 0x8000) <==> n % 0x1_0000 >= 0x8000
  {
    assert n / 0x8000 == 2 * (n / 0x1_0000) + (if n % 0x1_0000 >= 0x8000 then 1 else 0);
  }

  lemma Bit21(n: nat)
    ensures HasFlag(n, 0x0020_0000) <==> n % 0x0040_0000 >= 0x0020_0000
  {
    assert n / 0x0020_0000 == 2 * (n / 0x0040_0000) + (if n % 0x0040_0000 >= 0x0020_0000 then 1 else 0);
  }

  const CONNECT_WITH_DB: nat := 0x0000_0008
  const PROTOCOL_41: nat := 0x0000_0200
  const SECURE_CONNECTION: nat := 0x0000_8000
  const LENENC_CLIENT_DATA: nat := 0x0020_0000

  /** How the length of the authentication response is given. */
  function AuthLengthAt(payload: seq<Byte>, offset: nat, capabilities: nat): Read<nat>
    requires offset <= |payload|
  {
    if HasFlag(capabilities, LENENC_CLIENT_DATA) then LenencAt(payload, offset)
    else if HasFlag(capabilities, SECURE_CONNECTION) then
      if offset < |payload| then Done(payload[offset], offset + 1) else Fail
    else
      match Position(payload[offset..], 0)
      case None => Fail
      case Some(k) => Done(k, offset)
  }

  datatype HandshakeResponse = HandshakeResponse(username: Text, authResponse: seq<Byte>, database: Option<Text>)

  function DatabaseAt(payload: seq<Byte>, offset: nat, capabilities: nat, utf8: Text -> bool): Option<Option<Text>> {
    if !HasFlag(capabilities, CONNECT_WITH_DB) then Some(None)
    else
      match CStringAt(payload, offset, utf8)
      case Fail => None
      case Done(database, _) => Some(Some(database))
  }

  function ParsedHandshakeResponse(payload: seq<Byte>, utf8: Text -> bool): Option<HandshakeResponse> {
    if |payload| < 32 || !HasFlag(LittleEndian(payload[..4]), PROTOCOL_41) then None
    else
      var capabilities := LittleEndian(payload[..4]);
      match CStringAt(payload, 32, utf8)
      case Fail => None
      case Done(username, afterName) =>
        match AuthLengthAt(payload, afterName, capabilities)
        case Fail => None
        case Done(length, start) =>
          if start + length > |payload| then None
          else
            var database := DatabaseAt(payload, start + length, capabilities, utf8);
            if database.None? then None
            else Some(HandshakeResponse(username, payload[start..start + length], database.value))
  }

  method TakeCString(input: seq<Byte>, offset: nat, utf8: Text -> bool) returns (r: Read<Text>)
    ensures r == CStringAt(input, offset, utf8)
  {
    if offset > |input| {
      return Fail;
    }
    var remaining := input[offset..];
    var length := 0;
    while length < |remaining| && remaining[length] != 0
      invariant length <= |remaining| && Lacks(remaining[..length], 0)
    {
      length := length + 1;
    }
    if length == |remaining| {
      assert remaining[..length] == remaining;
      return Fail;
    }
    assert remaining == remaining[..length] + [0] + remaining[length + 1..];
    PositionAfter(remaining[..length], 0, remaining[length + 1..]);
    assert remaining[..length] == input[offset..offset + length];
    if !utf8(remaining[..length]) {
      return Fail;
    }
    return Done(remaining[..length], offset + length + 1);
  }

  method ParseHandshakeResponse(payload: seq<Byte>, utf8: Text -> bool) returns (r: Option<HandshakeResponse>)
    ensures r == ParsedHandshakeResponse(payload, utf8)
  {
    hide Position, LittleEndian;
    if |payload| < 32 {
      return None;
    }
    var capabilities := LittleEndian(payload[..4]);
    if !HasFlag(capabilities, PROTOCOL_41) {
      return None;
    }
    var offset := 32;
    var name := TakeCString(payload, offset, utf8);
    if name.Fail? {
      return None;
    }
    offset := name.next;
    var authLength := 0;
    if HasFlag(capabilities, LENENC_CLIENT_DATA) {
      var length := LenencAt(payload, offset);
      if length.Fail? {
        return None;
      }
      authLength, offset := length.value, length.next;
    } else if HasFlag(capabilities, SECURE_CONNECTION) {
      if offset >= |payload| {
        return None;
      }
      authLength, offset := payload[offset], offset + 1;
    } else {
      var length := Position(payload[offset..], 0);
      if length.None? {
        return None;
      }
      authLength := length.value;
    }
    if offset + authLength > |payload| {
      return None;
    }
    var authResponse := payload[offset..offset + authLength];
    offset := offset + authLength;
    var database: Option<Text> := None;
    if HasFlag(capabilities, CONNECT_WITH_DB) {
      var text := TakeCString(payload, offset, utf8);
      if text.Fail? {
        return None;
      }
      database := Some(text.value);
    }
    return Some(HandshakeResponse(name.value, authResponse, database));
  }

  // ---------------------------------------------------------------------------
  // What a client prints
  // ---------------------------------------------------------------------------

  function PrintedAuth(capabilities: nat, auth: seq<Byte>): seq<Byte> {
    if HasFlag(capabilities, 0x0020_0000) then
      (if |auth| <= 250 then [|auth|] else [0xfc] + ToLittleEndian(|auth| % 0x1_0000, 2)) + auth
    else if HasFlag(capabilities, 0x8000) then [|auth| % 0x100] + auth
    else auth + [0]
  }

  /** A length that the chosen branch can give. */
  predicate AuthFits(capabilities: nat, auth: seq<Byte>) {
    if HasFlag(capabilities, 0x0020_0000) then |auth| < 0x1_0000
    else if HasFlag(capabilities, 0x8000) then |auth| < 0x100
    else Lacks(auth, 0)
  }

  function PrintedDatabase(capabilities: nat, database: Text): seq<Byte> {
    if HasFlag(capabilities, 0x08) then database + [0] else []
  }

  /** A handshake response: capabilities, 28 bytes the server ignores, the name, the authentication response, the database. */
  function PrintedResponse(
    capabilities: U32, ignored: seq<Byte>, username: Text, auth: seq<Byte>, database: Text, rest: seq<Byte>): seq<Byte>
  {
    ToLittleEndian(capabilities, 4) + ignored + username + [0] + PrintedAuth(capabilities, auth)
    + PrintedDatabase(capabilities, database) + rest
  }

  lemma CStringReads(before: seq<Byte>, value: Text, rest: seq<Byte>, utf8: Text -> bool)
    requires Lacks(value, 0) && utf8(value)
    ensures CStringAt(before + (value + [0] + rest), |before|, utf8) == Done(value, |before| + |value| + 1)
  {
    hide Position;
    var input := before + (value + [0] + rest);
    PositionAfter(value, 0, rest);
    assert input[|before|..] == value + [0] + rest;
    assert input[|before|..|before| + |value|] == value;
  }

  lemma AuthReads(before: seq<Byte>, capabilities: nat, auth: seq<Byte>, rest: seq<Byte>)
    requires AuthFits(capabilities, auth)
    requires HasFlag(capabilities, 0x0020_0000) || HasFlag(capabilities, 0x8000)
    ensures var input := before + (PrintedAuth(capabilities, auth) + rest);
            var r := AuthLengthAt(input, |before|, capabilities);
            && r.Done? && r.value == |auth| && r.next + |auth| == |before| + |PrintedAuth(capabilities, auth)|
            && input[r.next..r.next + |auth|] == auth
  {
    hide Position, LittleEndian, ToLittleEndian, Pow256;
    var printed := PrintedAuth(capabilities, auth);
    var input := before + (printed + rest);
    assert input[|before|] == printed[0];
    if HasFlag(capabilities, 0x0020_0000) && |auth| > 250 {
      Pow256Values();
      LittleEndianRoundTrip(|auth|, 2);
      assert input[|before| + 1..|before| + 3] == ToLittleEndian(|auth|, 2);
      assert input[|before| + 3..|before| + 3 + |auth|] == auth;
    } else {
      assert input[|before| + 1..|before| + 1 + |auth|] == auth;
    }
  }

  lemma NulAuthReads(before: seq<Byte>, capabilities: nat, auth: seq<Byte>, rest: seq<Byte>)
    requires Lacks(auth, 0)
    requires !HasFlag(capabilities, 0x0020_0000) && !HasFlag(capabilities, 0x8000)
    ensures var input := before + (PrintedAuth(capabilities, auth) + rest);
            AuthLengthAt(input, |before|, capabilities) == Done(|auth|, |before|)
            && input[|before|..|before| + |auth|] == auth
  {
    hide Position;
    var input := before + (PrintedAuth(capabilities, auth) + rest);
    assert input[|before|..] == auth + [0] + rest;
    PositionAfter(auth, 0, rest);
  }

  lemma PrefixReads(capabilities: U32, ignored: seq<Byte>, username: Text, after: seq<Byte>, utf8: Text -> bool)
    requires |ignored| == 28 && Lacks(username, 0) && utf8(username)
    ensures var payload := ToLittleEndian(capabilities, 4) + ignored + (username + [0] + after);
            && |payload| >= 32 && LittleEndian(payload[..4]) == capabilities
            && CStringAt(payload, 32, utf8) == Done(username, 32 + |username| + 1)
            && |payload| == 32 + |username| + 1 + |after|
  {
    hide LittleEndian, ToLittleEndian, Pow256, CStringAt;
    Pow256Values();
    LittleEndianRoundTrip(capabilities, 4);
    var head := ToLittleEndian(capabilities, 4) + ignored;
    CStringReads(head, username, after, utf8);
    assert (head + (username + [0] + after))[..4] == ToLittleEndian(capabilities, 4);
  }

  lemma Regroup(head: seq<Byte>, username: seq<Byte>, auth: seq<Byte>, database: seq<Byte>, rest: seq<Byte>)
    ensures head + username + [0] + auth + database + rest == head + (username + [0] + (auth + (database + rest)))
    ensures head + (username + [0] + (auth + (database + rest))) == (head + username + [0]) + (auth + (database + rest))
    ensures head + (username + [0] + (auth + (database + rest))) == (head + username + [0] + auth) + (database + rest)
  {
  }

  /** A length the branch cannot give is read as another one. */
  lemma LongAuthIsMisread(before: seq<Byte>, capabilities: nat, auth: seq<Byte>, rest: seq<Byte>)
    requires !AuthFits(capabilities, auth)
    requires HasFlag(capabilities, 0x0020_0000) || HasFlag(capabilities, 0x8000)
    ensures var r := AuthLengthAt(before + (PrintedAuth(capabilities, auth) + rest), |before|, capabilities);
            r.Done? && r.value < |auth|
  {
    hide Position, LittleEndian, ToLittleEndian, Pow256;
    var printed := PrintedAuth(capabilities, auth);
    var input := before + (printed + rest);
    assert input[|before|] == printed[0];
    if HasFlag(capabilities, 0x0020_0000) {
      var length := |auth| % 0x1_0000;
      Pow256Values();
      LittleEndianRoundTrip(length, 2);
      assert input[|before| + 1..|before| + 3] == ToLittleEndian(length, 2);
    }
  }

  /**
   On the two branches that give a length, a response parses back into what was printed exactly when the branch can
   give the length of its authentication data: below 65536 bytes, or below 256 on the one-byte branch.
   */
  lemma HandshakeRoundTrip(
    capabilities: U32, ignored: seq<Byte>, username: Text, auth: seq<Byte>, database: Text, rest: seq<Byte>, utf8: Text -> bool)
    requires |ignored| == 28 && HasFlag(capabilities, 0x0200)
    requires Lacks(username, 0) && utf8(username) && Lacks(database, 0) && utf8(database)
    requires HasFlag(capabilities, 0x0020_0000) || HasFlag(capabilities, 0x8000)
    ensures ParsedHandshakeResponse(PrintedResponse(capabilities, ignored, username, auth, database, rest), utf8)
         == Some(HandshakeResponse(username, auth, if HasFlag(capabilities, 0x08) then Some(database) else None))
       <==> AuthFits(capabilities, auth)
  {
    hide LittleEndian, ToLittleEndian, CStringAt, AuthLengthAt, PrintedAuth, HasFlag, AuthFits;
    var head, printed, tail := ToLittleEndian(capabilities, 4) + ignored, PrintedAuth(capabilities, auth), PrintedDatabase(capabilities, database);
    Regroup(head, username, printed, tail, rest);
    PrefixReads(capabilities, ignored, username, printed + (tail + rest), utf8);
    if AuthFits(capabilities, auth) {
      AuthReads(head + username + [0], capabilities, auth, tail + rest);
      if HasFlag(capabilities, 0x08) {
        CStringReads(head + username + [0] + printed, database, rest, utf8);
      }
    } else {
      LongAuthIsMisread(head + username + [0], capabilities, auth, tail + rest);
    }
  }

  /**
   On the zero-terminated branch the parser stays on the terminator, so the database it reads is the empty string:
   the response parses back exactly when no database or an empty one was sent.
   */
  lemma NulHandshakeRoundTrip(
    capabilities: U32, ignored: seq<Byte>, username: Text, auth: seq<Byte>, database: Text, rest: seq<Byte>, utf8: Text -> bool)
    requires |ignored| == 28 && HasFlag(capabilities, 0x0200)
    requires Lacks(username, 0) && utf8(username) && utf8([]) && Lacks(auth, 0)
    requires !HasFlag(capabilities, 0x0020_0000) && !HasFlag(capabilities, 0x8000)
    ensures ParsedHandshakeResponse(PrintedResponse(capabilities, ignored, username, auth, database, rest), utf8)
         == Some(HandshakeResponse(username, auth, if HasFlag(capabilities, 0x08) then Some([]) else None))
    ensures ParsedHandshakeResponse(PrintedResponse(capabilities, ignored, username, auth, database, rest), utf8)
         == Some(HandshakeResponse(username, auth, if HasFlag(capabilities, 0x08) then Some(database) else None))
       <==> !HasFlag(capabilities, 0x08) || database == []
  {
    hide LittleEndian, ToLittleEndian, CStringAt, AuthLengthAt, HasFlag;
    var head, printed, tail := ToLittleEndian(capabilities, 4) + ignored, PrintedAuth(capabilities, auth), PrintedDatabase(capabilities, database);
    Regroup(head, username, printed, tail, rest);
    PrefixReads(capabilities, ignored, username, printed + (tail + rest), utf8);
    NulAuthReads(head + username + [0], capabilities, auth, tail + rest);
    if HasFlag(capabilities, 0x08) {
      NulRegroup(head + username + [0], auth, tail + rest);
      CStringReads(head + username + [0] + auth, [], tail + rest, utf8);
    }
  }

  lemma NulRegroup(before: seq<Byte>, auth: seq<Byte>, after: seq<Byte>)
    ensures before + ((auth + [0]) + after) == (before + auth) + ([] + [0] + after)
  {
  }

  // ---------------------------------------------------------------------------
  // Strings of a result set
  // ---------------------------------------------------------------------------

  /** The length on one byte, cut off above it. */
  function LenencString(value: Text): seq<Byte> {
    [|value| % 0x100] + value
  }

  function LenencStringAt(input: seq<Byte>, offset: nat): Read<Text> {
    match LenencAt(input, offset)
    case Fail => Fail
    case Done(length, start) =>
      if start + length > |input| then Fail else Done(input[start..start + length], start + length)
  }

  /** A printed string reads back, leaving what follows it, exactly when it is shorter than 251 bytes. */
  lemma LenencStringRoundTrip(before: seq<Byte>, value: Text, rest: seq<Byte>)
    ensures LenencStringAt(before + (LenencString(value) + rest), |before|) == Done(value, |before| + 1 + |value|)
       <==> |value| <= 250
  {
    hide LittleEndian;
    var input := before + (LenencString(value) + rest);
    assert input[|before|] == |value| % 0x100;
    if |value| <= 250 {
      assert input[|before| + 1..|before| + 1 + |value|] == value;
    }
  }

  /** The catalog, then three empty names: schema, table and original table. */
  function ColumnHead(): (head: seq<Byte>)
    ensures |head| == 7
  {
    LenencString(Ascii("def")) + LenencString([]) + LenencString([]) + LenencString([])
  }

  /** The empty original name and the fixed attributes of a text column. */
  function ColumnTail(): (tail: seq<Byte>)
    ensures |tail| == 14
  {
    LenencString([]) + [0x0c] + ToLittleEndian(0x21, 2) + ToLittleEndian(1024, 4) + [0xfd] + ToLittleEndian(0, 2) + [0] + [0, 0]
  }

  function ColumnDefinition(name: Text): seq<Byte> {
    ColumnHead() + (LenencString(name) + ColumnTail())
  }

  const END_OF_FILE: seq<Byte> := [0xfe, 0, 0, 2, 0]

  /** The five packets of a one-row result. */
  function TextResult(column: Text, value: Text): seq<Byte> {
    Packet(1, [1])
    + (Packet(2, ColumnDefinition(column)) + (Packet(3, END_OF_FILE) + (Packet(4, LenencString(value)) + Packet(5, END_OF_FILE))))
  }

  /** The payload of the next packet, if it has the expected sequence number, and what follows it. */
  function Expect(sequence: Byte, input: seq<Byte>): Option<(seq<Byte>, seq<Byte>)> {
    match ReadPacket(input)
    case EndOfInput => None
    case Malformed => None
    case Incoming(found, payload, rest) => if found == sequence then Some((payload, rest)) else None
  }

  /** The name in a column definition: of the default catalog and no table, and of UTF-8 text up to 1024 bytes wide. */
  function ColumnName(definition: seq<Byte>): Option<Text> {
    if |definition| < 7 || definition[..7] != [3, 100, 101, 102, 0, 0, 0] then None
    else
      match LenencStringAt(definition, 7)
      case Fail => None
      case Done(name, next) =>
        if next <= |definition| && definition[next..] == [0, 12, 33, 0, 0, 4, 0, 0, 0xfd, 0, 0, 0, 0, 0] then Some(name) else None
  }

  /** A client reading a whole result, five packets in sequence: the column's name, and the one string of the row. */
  function ReadTextResult(input: seq<Byte>): Option<(Text, Text)> {
    var count := Expect(1, input);
    if count.None? || count.value.0 != [1] then None
    else
      var column := Expect(2, count.value.1);
      if column.None? || ColumnName(column.value.0).None? then None
      else
        var header := Expect(3, column.value.1);
        if header.None? || header.value.0 != [0xfe, 0, 0, 2, 0] || ReadRow(header.value.1).None? then None
        else Some((ColumnName(column.value.0).value, ReadRow(header.value.1).value))
  }

  function ReadRow(input: seq<Byte>): Option<Text> {
    var row := Expect(4, input);
    if row.None? then None
    else
      var end := Expect(5, row.value.1);
      if end.None? || end.value != ([0xfe, 0, 0, 2, 0], []) then None
      else
        match LenencStringAt(row.value.0, 0)
        case Fail => None
        case Done(value, next) => if next == |row.value.0| then Some(value) else None
  }

  lemma ExpectReads(sequence: Byte, payload: seq<Byte>, rest: seq<Byte>)
    requires |payload| <= MAX_PACKET_SIZE
    ensures Expect(sequence, Packet(sequence, payload) + rest) == Some((payload, rest))
  {
    hide ReadPacket, Packet;
    PacketRoundTrip(sequence, payload, rest);
  }

  lemma ColumnSize(name: Text)
    ensures |ColumnDefinition(name)| == 22 + |name|
  {
    hide ColumnHead, ColumnTail;
  }

  lemma ExpectIsShort(sequence: Byte, input: seq<Byte>)
    ensures Expect(sequence, input).Some? ==> |Expect(sequence, input).value.0| <= MAX_PACKET_SIZE
  {
    hide LittleEndian;
  }

  /** Whatever a client reads came in packets within the limit. */
  lemma ReadsAreShort(input: seq<Byte>)
    ensures ReadTextResult(input).Some? ==>
              |ReadTextResult(input).value.0| + 22 <= MAX_PACKET_SIZE && |ReadTextResult(input).value.1| < MAX_PACKET_SIZE
  {
    hide Expect, LenencAt;
    var count := Expect(1, input);
    if ReadTextResult(input).Some? {
      var column := Expect(2, count.value.1).value;
      ExpectIsShort(2, count.value.1);
      var header := Expect(3, column.1).value;
      ExpectIsShort(4, header.1);
      LenencIsLonger(column.0, 7);
      LenencIsLonger(Expect(4, header.1).value.0, 0);
    }
  }

  lemma LenencIsLonger(input: seq<Byte>, offset: nat)
    ensures LenencStringAt(input, offset).Done? ==>
              LenencStringAt(input, offset).next >= offset + 1 + |LenencStringAt(input, offset).value|
  {
    hide LittleEndian;
  }

  lemma ColumnNameReads(name: Text)
    ensures ColumnName(ColumnDefinition(name)) == Some(name) <==> |name| <= 250
  {
    hide LenencStringAt, LenencString, ColumnHead, ColumnTail;
    LenencSize(name);
    ColumnConstants();
    var definition := ColumnDefinition(name);
    assert definition[..7] == ColumnHead();
    assert definition[8 + |name|..] == ColumnTail();
    LenencStringRoundTrip(ColumnHead(), name, ColumnTail());
  }

  lemma ColumnConstants()
    ensures ColumnHead() == [3, 100, 101, 102, 0, 0, 0]
    ensures ColumnTail() == [0, 12, 33, 0, 0, 4, 0, 0, 0xfd, 0, 0, 0, 0, 0]
  {
    hide ToLittleEndian;
    TwoBytes(0x21);
    TwoBytes(0);
    FourBytes(1024);
    assert LenencString([]) == [0] && LenencString(Ascii("def")) == [3, 100, 101, 102];
  }

  lemma TwoBytes(n: nat)
    requires n < 0x1_0000
    ensures ToLittleEndian(n, 2) == [n % 0x100, n / 0x100]
  {
    assert ToLittleEndian(n / 0x100, 1) == [n / 0x100 % 0x100] + ToLittleEndian(n / 0x100 / 0x100, 0);
  }

  lemma FourBytes(n: nat)
    requires n < 0x1_0000
    ensures ToLittleEndian(n, 4) == [n % 0x100, n / 0x100, 0, 0]
  {
    TwoBytes(0);
    assert ToLittleEndian(n / 0x100, 3) == [n / 0x100 % 0x100] + ToLittleEndian(n / 0x100 / 0x100, 2);
    assert n / 0x100 / 0x100 == 0;
  }

  /**
   A result's column name and string come back exactly when both are shorter than 251 bytes; longer ones are sent with
   a wrong length.
   */
  lemma TextResultReads(column: Text, value: Text)
    ensures ReadTextResult(TextResult(column, value)) == Some((column, value)) <==> |column| <= 250 && |value| <= 250
  {
    hide Packet, Expect, ColumnDefinition, ColumnName, LenencStringAt, LenencString, ReadRow;
    ReadsAreShort(TextResult(column, value));
    if |column| + 22 <= MAX_PACKET_SIZE && |value| < MAX_PACKET_SIZE {
      var row := LenencString(value);
      LenencSize(value);
      ColumnSize(column);
      var fifth := Packet(5, END_OF_FILE);
      var fourth := Packet(4, row) + fifth;
      var third := Packet(3, END_OF_FILE) + fourth;
      var second := Packet(2, ColumnDefinition(column)) + third;
      ExpectReads(1, [1], second);
      ExpectReads(2, ColumnDefinition(column), third);
      ExpectReads(3, END_OF_FILE, fourth);
      ColumnNameReads(column);
      RowReads(value);
    }
  }

  lemma LenencSize(value: Text)
    ensures |LenencString(value)| == 1 + |value|
  {
  }

  lemma RowReads(value: Text)
    requires |value| < 65536
    ensures ReadRow(Packet(4, LenencString(value)) + Packet(5, END_OF_FILE)) == Some(value) <==> |value| <= 250
  {
    hide Packet, Expect, LenencStringAt, LenencString;
    var row := LenencString(value);
    LenencSize(value);
    ExpectReads(4, row, Packet(5, END_OF_FILE));
    ExpectReads(5, END_OF_FILE, []);
    assert Packet(5, END_OF_FILE) + [] == Packet(5, END_OF_FILE);
    LenencStringRoundTrip([], value, []);
    assert [] + (row + []) == row;
  }
}
