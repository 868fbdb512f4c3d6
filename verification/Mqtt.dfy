/** MQTT control packets: the variable-length remaining length, and the CONNECT packet. */
module Mqtt {
  import opened Wrappers
  import opened Bytes

  const MAX_PACKET_SIZE: nat := 65536

  // ---------------------------------------------------------------------------
  // The remaining length (section 2.2.3 of MQTT 3.1.1)
  // ---------------------------------------------------------------------------

  function Pow128(n: nat): (p: nat)
    ensures p > 0
  {
    if n == 0 then 1 else 128 * Pow128(n - 1)
  }

  /** Base-128 digits, least significant first; every digit but the last has its high bit set. */
  function EncodedLength(n: nat): (digits: seq<Byte>)
    ensures digits != []
  {
    if n < 128 then [n] else [n % 128 + 128] + EncodedLength(n / 128)
  }

  /** The number that at most `limit` digits denote, and how many of them there are. */
  function LengthAt(input: seq<Byte>, at: nat, limit: nat): Read<nat>
    decreases limit
  {
    if limit == 0 || at >= |input| then Fail
    else if input[at] < 128 then Done(input[at], at + 1)
    else
      match LengthAt(input, at + 1, limit - 1)
      case Fail => Fail
      case Done(rest, next) => Done(input[at] - 128 + 128 * rest, next)
  }

  /** A running multiplier, at most four bytes. */
  method ReadRemainingLength(input: seq<Byte>, at: nat) returns (r: Read<nat>)
    ensures r == LengthAt(input, at, 4)
  {
    hide LengthAt, Continued;
    var multiplier: nat, remaining: nat, offset: nat := 1, 0, at;
    ContinuedFromStart(LengthAt(input, at, 4));
    for index := 0 to 4
      invariant offset == at + index
      invariant LengthAt(input, at, 4) == Continued(remaining, multiplier, LengthAt(input, offset, 4 - index))
    {
      LengthStep(remaining, multiplier, input, offset, 4 - index);
      if offset >= |input| {
        return Fail;
      }
      var encoded := input[offset];
      remaining := remaining + encoded % 128 * multiplier;
      offset := offset + 1;
      if encoded < 128 {
        return Done(remaining, offset);
      }
      if index == 3 {
        LengthStep(remaining, multiplier, input, offset, 0);
        return Fail;
      }
      multiplier := multiplier * 128;
    }
    LengthStep(remaining, multiplier, input, offset, 0);
    return Fail;
  }

  /** What the loop returns once the digits still to come have been read. */
  function Continued(remaining: nat, multiplier: nat, r: Read<nat>): Read<nat> {
    match r
    case Fail => Fail
    case Done(value, next) => Done(remaining + multiplier * value, next)
  }

  function AfterDigit(remaining: nat, multiplier: nat, input: seq<Byte>, at: nat, limit: nat): Read<nat>
    requires limit > 0 && at < |input|
  {
    var sum := remaining + input[at] % 128 * multiplier;
    if input[at] < 128 then Done(sum, at + 1)
    else Continued(sum, multiplier * 128, LengthAt(input, at + 1, limit - 1))
  }

  lemma ContinuedFromStart(r: Read<nat>)
    ensures Continued(0, 1, r) == r
  {
  }

  lemma LengthStep(remaining: nat, multiplier: nat, input: seq<Byte>, at: nat, limit: nat)
    ensures var r := Continued(remaining, multiplier, LengthAt(input, at, limit));
            if limit == 0 || at >= |input| then forall m, n :: Continued(m, n, LengthAt(input, at, limit)) == Fail
            else r == AfterDigit(remaining, multiplier, input, at, limit)
  {
    if limit > 0 && at < |input| && input[at] >= 128 {
      var rest := LengthAt(input, at + 1, limit - 1);
      if rest.Done? {
        Distribute(multiplier, input[at] - 128, rest.value);
      }
    }
  }

  lemma Distribute(m: nat, d: nat, v: nat)
    ensures m * (d + 128 * v) == d * m + m * 128 * v
  {
  }

  lemma {:induction false} DigitsNeeded(n: nat, k: nat)
    requires k > 0
    ensures |EncodedLength(n)| <= k <==> n < Pow128(k)
  {
    if n >= 128 {
      if k == 1 {
        assert Pow128(1) == 128;
      } else {
        DigitsNeeded(n / 128, k - 1);
        assert Pow128(k) == 128 * Pow128(k - 1);
      }
    } else {
      Pow128AtLeast(k);
    }
  }

  lemma {:induction false} Pow128AtLeast(k: nat)
    requires k > 0
    ensures Pow128(k) >= 128
  {
    if k > 1 {
      Pow128AtLeast(k - 1);
    }
  }

  /** Printed digits read back, anywhere and whatever follows, exactly when there are no more than the limit. */
  lemma {:induction false} LengthRoundTrip(before: seq<Byte>, n: nat, rest: seq<Byte>, limit: nat)
    ensures var r := LengthAt(before + (EncodedLength(n) + rest), |before|, limit);
            if |EncodedLength(n)| <= limit then r == Done(n, |before| + |EncodedLength(n)|) else r == Fail
    decreases limit
  {
    var digits := EncodedLength(n);
    var input := before + (digits + rest);
    if limit > 0 {
      assert input[|before|] == digits[0];
      if n >= 128 {
        LengthRoundTrip(before + [digits[0]], n / 128, rest, limit - 1);
        assert digits == [digits[0]] + EncodedLength(n / 128);
        assert input == (before + [digits[0]]) + (EncodedLength(n / 128) + rest);
      }
    }
  }

  // ---------------------------------------------------------------------------
  // Packets
  // ---------------------------------------------------------------------------

  function Packet(header: Byte, payload: seq<Byte>): seq<Byte> {
    [header] + EncodedLength(|payload|) + payload
  }

  datatype Incoming = EndOfInput | Malformed | Incoming(header: Byte, payload: seq<Byte>, rest: seq<Byte>)

  function IncomingPacket(input: seq<Byte>): Incoming {
    if input == [] then EndOfInput
    else
      match LengthAt(input, 1, 4)
      case Fail => Malformed
      case Done(length, start) =>
        if length > MAX_PACKET_SIZE || start + length > |input| then Malformed
        else Incoming(input[0], input[start..start + length], input[start + length..])
  }

  method ReadPacket(input: seq<Byte>) returns (r: Incoming)
    ensures r == IncomingPacket(input)
  {
    if input == [] {
      return EndOfInput;
    }
    var length := ReadRemainingLength(input, 1);
    if length.Fail? || length.value > MAX_PACKET_SIZE || length.next + length.value > |input| {
      return Malformed;
    }
    var start, end := length.next, length.next + length.value;
    return Incoming(input[0], input[start..end], input[end..]);
  }

  /** A packet reads back exactly when its payload is within the limit; its length then takes at most three bytes. */
  lemma PacketRoundTrip(header: Byte, payload: seq<Byte>, rest: seq<Byte>)
    ensures IncomingPacket(Packet(header, payload) + rest)
         == if |payload| <= 65536 then Incoming(header, payload, rest) else Malformed
    ensures |payload| <= 65536 ==> |EncodedLength(|payload|)| <= 3
  {
    hide EncodedLength, LengthAt;
    var digits := EncodedLength(|payload|);
    var input := Packet(header, payload) + rest;
    assert input == [header] + (digits + (payload + rest));
    LengthRoundTrip([header], |payload|, payload + rest, 4);
    DigitsNeeded(|payload|, 3);
    assert Pow128(3) == 128 * (128 * (128 * Pow128(0)));
    if |payload| <= MAX_PACKET_SIZE {
      var start := 1 + |digits|;
      assert input[start..start + |payload|] == payload;
      assert input[start + |payload|..] == rest;
    }
  }

  // ---------------------------------------------------------------------------
  // CONNECT
  // ---------------------------------------------------------------------------

  const NAME_MQTT: seq<Byte> := [77, 81, 84, 84]
  const NAME_MQISDP: seq<Byte> := [77, 81, 73, 115, 100, 112]

  datatype Connect = Connect(level: Byte, hasCredentials: bool)

  /** Protocol level and whether the user name or the password flag is set. */
  function ParseConnect(payload: seq<Byte>): Option<Connect> {
    if |payload| < 7 then None
    else
      var length := BigEndian(payload[..2]);
      if 2 + length + 2 > |payload| then None
      else
        var name := payload[2..2 + length];
        if name != NAME_MQTT && name != NAME_MQISDP then None
        else Some(Connect(payload[2 + length], payload[3 + length] / 64 % 4 != 0))
  }

  function PrintedConnect(name: seq<Byte>, level: Byte, userName: bool, password: bool, otherFlags: nat, rest: seq<Byte>): seq<Byte>
    requires otherFlags < 64
  {
    var flags := (if userName then 128 else 0) + (if password then 64 else 0) + otherFlags;
    ToBigEndian(|name| % 0x1_0000, 2) + name + [level, flags] + rest
  }

  /** A CONNECT packet parses exactly when its protocol name is one of the two known ones. */
  lemma ConnectRoundTrip(name: seq<Byte>, level: Byte, userName: bool, password: bool, otherFlags: nat, rest: seq<Byte>)
    requires otherFlags < 64 && |name| < 0x1_0000
    ensures ParseConnect(PrintedConnect(name, level, userName, password, otherFlags, rest))
         == if name == [77, 81, 84, 84] || name == [77, 81, 73, 115, 100, 112] then Some(Connect(level, userName || password)) else None
  {
    hide BigEndian, ToBigEndian, Pow256;
    Pow256Values();
    BigEndianRoundTrip(|name|, 2);
    var prefix := ToBigEndian(|name|, 2);
    var payload := PrintedConnect(name, level, userName, password, otherFlags, rest);
    assert payload[..2] == prefix;
    assert payload[2..2 + |name|] == name;
    assert payload[2 + |name|] == level;
  }
}
